/**
 * The printer's framed command protocol (BluetoothPrinterManager.swift):
 * the CRC-8 checksum, the outbound command frame, and the classification of
 * inbound flow-control notifications.
 */
module Protocol {
  import opened Wrappers

  type Byte = bv8

  const SyncHeader0: Byte := 0x51
  const SyncHeader1: Byte := 0x78
  const Terminator: Byte := 0xFF
  const Polynomial: Byte := 0x07

  /** A command code together with its payload, before framing. */
  datatype Command = Command(code: Byte, payload: seq<Byte>)

  // ---------------------------------------------------------------------------
  // CRC-8: polynomial 0x07, initial value 0, MSB first, no reflection, no final XOR
  // ---------------------------------------------------------------------------

  /** One round of the checksum register: shift left, folding in the polynomial
      when the bit shifted out was set. */
  function CrcRound(crc: Byte): Byte {
    if crc & 0x80 != 0 then (crc << 1) ^ Polynomial else crc << 1
  }

  /** `n` rounds applied one after another. */
  function CrcRounds(crc: Byte, n: nat): Byte {
    if n == 0 then crc else CrcRound(CrcRounds(crc, n - 1))
  }

  /** Absorbing one byte: XOR it into the register, then eight rounds. */
  function CrcByte(crc: Byte, b: Byte): Byte {
    CrcRounds(crc ^ b, 8)
  }

  /** The checksum of `data`, absorbing the bytes from first to last. */
  function Crc8(data: seq<Byte>): Byte {
    if |data| == 0 then 0 else CrcByte(Crc8(data[..|data| - 1]), data[|data| - 1])
  }

  /** `calculateCRC8`: the nested loop over the bytes and the eight rounds. */
  method CalculateCrc8(data: seq<Byte>) returns (crc: Byte)
    ensures crc == Crc8(data)
  {
    crc := 0;
    for i := 0 to |data|
      invariant crc == Crc8(data[..i])
    {
      crc := crc ^ data[i];
      ghost var absorbed := crc;
      for k := 0 to 8
        invariant crc == CrcRounds(absorbed, k)
      {
        if crc & 0x80 != 0 {
          crc := (crc << 1) ^ Polynomial;
        } else {
          crc := crc << 1;
        }
      }
      assert data[..i + 1][..i] == data[..i];
    }
    assert data[..|data|] == data;
  }

  /** The empty payload has checksum 0 (the initial value). */
  lemma Crc8Empty()
    ensures Crc8([]) == 0
  {
  }

  /** The catalogued check value of this parameter set (CRC-8/SMBUS):
      the ASCII bytes of "123456789" give 0xF4. */
  lemma Crc8CheckValue()
    ensures Crc8([0x31, 0x32, 0x33, 0x34, 0x35, 0x36, 0x37, 0x38, 0x39]) == 0xF4
  {
    var s: seq<Byte> := [0x31, 0x32, 0x33, 0x34, 0x35, 0x36, 0x37, 0x38, 0x39];
    assert Crc8(s[..1]) == 0x97 by { assert s[..1][..0] == []; }
    assert Crc8(s[..2]) == 0x72 by { assert s[..2][..1] == s[..1]; }
    assert Crc8(s[..3]) == 0xC0 by { assert s[..3][..2] == s[..2]; }
    assert Crc8(s[..4]) == 0xC2 by { assert s[..4][..3] == s[..3]; }
    assert Crc8(s[..5]) == 0xCB by { assert s[..5][..4] == s[..4]; }
    assert Crc8(s[..6]) == 0xFD by { assert s[..6][..5] == s[..5]; }
    assert Crc8(s[..7]) == 0x78 by { assert s[..7][..6] == s[..6]; }
    assert Crc8(s[..8]) == 0xC7 by { assert s[..8][..7] == s[..7]; }
    assert s[..9] == s;
  }

  /** Every round maps distinct registers to distinct registers. */
  lemma CrcRoundInjective(u: Byte, v: Byte)
    requires u != v
    ensures CrcRound(u) != CrcRound(v)
  {
  }

  lemma {:induction false} CrcRoundsInjective(u: Byte, v: Byte, n: nat)
    requires u != v
    ensures CrcRounds(u, n) != CrcRounds(v, n)
  {
    if n > 0 {
      CrcRoundsInjective(u, v, n - 1);
      CrcRoundInjective(CrcRounds(u, n - 1), CrcRounds(v, n - 1));
    }
  }

  lemma {:induction false} CrcRoundsZero(n: nat)
    ensures CrcRounds(0, n) == 0
  {
    if n > 0 {
      CrcRoundsZero(n - 1);
    }
  }

  /** A checksum appended to its own data makes the checksum of the whole zero:
      the check a receiver can run over payload and checksum byte together. */
  lemma Crc8Residue(data: seq<Byte>)
    ensures Crc8(data + [Crc8(data)]) == 0
  {
    var whole := data + [Crc8(data)];
    assert whole[..|whole| - 1] == data;
    CrcRoundsZero(8);
  }

  /** Absorbing the same byte into different registers keeps them different. */
  lemma CrcByteInjectiveInRegister(c1: Byte, c2: Byte, b: Byte)
    requires c1 != c2
    ensures CrcByte(c1, b) != CrcByte(c2, b)
  {
    CrcRoundsInjective(c1 ^ b, c2 ^ b, 8);
  }

  /** Absorbing different bytes into the same register gives different registers. */
  lemma CrcByteInjectiveInByte(c: Byte, b1: Byte, b2: Byte)
    requires b1 != b2
    ensures CrcByte(c, b1) != CrcByte(c, b2)
  {
    CrcRoundsInjective(c ^ b1, c ^ b2, 8);
  }

  /** Changing any one byte of the data (for instance flipping one bit) always
      changes the checksum. */
  lemma {:induction false} Crc8DetectsSingleByteError(data: seq<Byte>, i: nat, y: Byte)
    requires i < |data| && y != data[i]
    ensures Crc8(data[i := y]) != Crc8(data)
  {
    var n := |data|;
    var changed := data[i := y];
    if i == n - 1 {
      assert changed[..n - 1] == data[..n - 1];
      CrcByteInjectiveInByte(Crc8(data[..n - 1]), y, data[i]);
    } else {
      assert changed[..n - 1] == data[..n - 1][i := y];
      Crc8DetectsSingleByteError(data[..n - 1], i, y);
      CrcByteInjectiveInRegister(Crc8(changed[..n - 1]), Crc8(data[..n - 1]), data[n - 1]);
    }
  }

  // ---------------------------------------------------------------------------
  // Outbound frame
  // ---------------------------------------------------------------------------

  /** The frame `sendCommand` writes: header 51 78, command, 00, payload length,
      00, the payload, its checksum, and FF. The length byte is
      `UInt8(payload.count)`, which traps for payloads over 255 bytes. */
  function EncodePacket(cmd: Byte, payload: seq<Byte>): (packet: seq<Byte>)
    requires |payload| <= 255
    ensures |packet| == 8 + |payload|
  {
    Frame(cmd, payload, Crc8(payload))
  }

  /** The frame layout around a given checksum byte. */
  function Frame(cmd: Byte, payload: seq<Byte>, crc: Byte): (packet: seq<Byte>)
    requires |payload| <= 255
    ensures |packet| == 8 + |payload|
  {
    [SyncHeader0, SyncHeader1, cmd, 0x00, |payload| as Byte, 0x00] + payload + [crc, Terminator]
  }

  /** Where each field of a frame sits. */
  lemma PacketLayout(cmd: Byte, payload: seq<Byte>)
    requires |payload| <= 255
    ensures var packet := EncodePacket(cmd, payload);
      && packet[..4] == [SyncHeader0, SyncHeader1, cmd, 0x00] && packet[5] == 0x00
      && packet[4] == |payload| as Byte
      && packet[6..6 + |payload|] == payload
      && packet[6 + |payload|] == Crc8(payload) && packet[7 + |payload|] == Terminator
  {
    FrameLayout(cmd, payload, Crc8(payload));
  }

  lemma FrameLayout(cmd: Byte, payload: seq<Byte>, crc: Byte)
    requires |payload| <= 255
    ensures var packet := Frame(cmd, payload, crc);
      && packet[..4] == [SyncHeader0, SyncHeader1, cmd, 0x00] && packet[5] == 0x00
      && packet[4] == |payload| as Byte
      && packet[6..6 + |payload|] == payload
      && packet[6 + |payload|] == crc && packet[7 + |payload|] == Terminator
  {
    var packet := Frame(cmd, payload, crc);
    var head: seq<Byte> := [SyncHeader0, SyncHeader1, cmd, 0x00, |payload| as Byte, 0x00];
    assert packet == (head + payload) + [crc, Terminator];
    Pieces(head, payload, [crc, Terminator]);
    assert packet[..4] == head[..4];
  }

  /** The three pieces of a concatenation, recovered by slicing. */
  lemma Pieces<T>(a: seq<T>, b: seq<T>, c: seq<T>)
    ensures ((a + b) + c)[..|a|] == a
    ensures ((a + b) + c)[|a|..|a| + |b|] == b
    ensures forall k :: 0 <= k < |a| ==> ((a + b) + c)[k] == a[k]
    ensures forall k :: 0 <= k < |c| ==> ((a + b) + c)[|a| + |b| + k] == c[k]
  {
  }

  /** The checksum byte of a frame depends on the payload only: two frames with
      the same payload differ at most in their command byte. */
  lemma ChecksumCoversPayloadOnly(cmd1: Byte, cmd2: Byte, payload: seq<Byte>)
    requires |payload| <= 255
    ensures forall k :: 0 <= k < 8 + |payload| && k != 2 ==>
      EncodePacket(cmd1, payload)[k] == EncodePacket(cmd2, payload)[k]
  {
    PacketLayout(cmd1, payload);
    PacketLayout(cmd2, payload);
  }

  /** Reading a frame back: the inverse of EncodePacket, rejecting anything
      with a wrong header, reserved byte, length, checksum or terminator. */
  function ParsePacket(bytes: seq<Byte>): (r: Option<Command>)
    ensures r.Some? ==> |bytes| == 8 + |r.value.payload| && bytes[2] == r.value.code
  {
    if |bytes| < 8 || |bytes| > 8 + 255 then
      None
    else
      var n := |bytes| - 8;
      if bytes[0] != SyncHeader0 || bytes[1] != SyncHeader1 || bytes[3] != 0x00 || bytes[5] != 0x00
         || bytes[4] != n as Byte || bytes[7 + n] != Terminator || bytes[6 + n] != Crc8(bytes[6..6 + n]) then
        None
      else
        Some(Command(bytes[2], bytes[6..6 + n]))
  }

  /** Parsing an encoded frame recovers the command and payload. */
  lemma ParseEncode(cmd: Byte, payload: seq<Byte>)
    requires |payload| <= 255
    ensures ParsePacket(EncodePacket(cmd, payload)) == Some(Command(cmd, payload))
  {
    PacketLayout(cmd, payload);
  }

  /** Every frame the parser accepts is exactly the encoding of what it returns. */
  lemma EncodeParse(bytes: seq<Byte>)
    requires ParsePacket(bytes).Some?
    ensures |ParsePacket(bytes).value.payload| <= 255
    ensures EncodePacket(ParsePacket(bytes).value.code, ParsePacket(bytes).value.payload) == bytes
  {
    var c := ParsePacket(bytes).value;
    var n := |bytes| - 8;
    var head, mid, tail := bytes[..6], bytes[6..6 + n], bytes[6 + n..];
    assert bytes == head + mid + tail;
    assert c.payload == mid;
    assert head == [SyncHeader0, SyncHeader1, c.code, 0x00, n as Byte, 0x00];
    assert tail == [Crc8(mid), Terminator];
  }

  // ---------------------------------------------------------------------------
  // Inbound flow control
  // ---------------------------------------------------------------------------

  datatype FlowControl = Pause | Resume | Ignored

  /** The flow-control branch of the notification handler: at least nine bytes
      starting 51 78 AE 01, then bytes 6 and 7 select pause (10 70) or
      resume (00 00); everything else is dropped. */
  function ClassifyNotification(bytes: seq<Byte>): (r: FlowControl)
    ensures r == Pause <==>
      |bytes| >= 9 && bytes[..4] == [0x51, 0x78, 0xAE, 0x01] && bytes[6] == 0x10 && bytes[7] == 0x70
    ensures r == Resume <==>
      |bytes| >= 9 && bytes[..4] == [0x51, 0x78, 0xAE, 0x01] && bytes[6] == 0x00 && bytes[7] == 0x00
  {
    if |bytes| >= 9 && bytes[0] == 0x51 && bytes[1] == 0x78 && bytes[2] == 0xAE && bytes[3] == 0x01 then
      if bytes[6] == 0x10 && bytes[7] == 0x70 then Pause
      else if bytes[6] == 0x00 && bytes[7] == 0x00 then Resume
      else Ignored
    else
      Ignored
  }

  /** Only the length and bytes 0-3, 6 and 7 decide the classification. */
  lemma ClassificationIgnoresOtherBytes(a: seq<Byte>, b: seq<Byte>)
    requires |a| >= 9 && |b| >= 9
    requires a[..4] == b[..4] && a[6] == b[6] && a[7] == b[7]
    ensures ClassifyNotification(a) == ClassifyNotification(b)
  {
    assert a[0] == a[..4][0] && a[1] == a[..4][1] && a[2] == a[..4][2] && a[3] == a[..4][3];
    assert b[0] == b[..4][0] && b[1] == b[..4][1] && b[2] == b[..4][2] && b[3] == b[..4][3];
  }

  /** A frame of the outbound format is never taken for flow control, whatever
      its command: its fourth byte is 00, not 01. */
  lemma OutboundFrameIsNotFlowControl(cmd: Byte, payload: seq<Byte>)
    requires |payload| <= 255
    ensures ClassifyNotification(EncodePacket(cmd, payload)) == Ignored
  {
    var e := EncodePacket(cmd, payload);
    PacketLayout(cmd, payload);
    assert e[3] == e[..4][3];
  }

  // ---------------------------------------------------------------------------
  // Sequences of frames
  // ---------------------------------------------------------------------------

  /** Every command's payload fits the one-byte length field. */
  predicate Encodable(cs: seq<Command>) {
    forall i :: 0 <= i < |cs| ==> |cs[i].payload| <= 255
  }

  /** The frames written for `cs`, one per command, in order. */
  function Frames(cs: seq<Command>): (frames: seq<seq<Byte>>)
    requires Encodable(cs)
    ensures |frames| == |cs|
  {
    if cs == [] then [] else [EncodePacket(cs[0].code, cs[0].payload)] + Frames(cs[1..])
  }

  /** The `i`-th frame is the packet of the `i`-th command. */
  lemma {:induction false} FramesAt(cs: seq<Command>, i: nat)
    requires Encodable(cs) && i < |cs|
    ensures Frames(cs)[i] == EncodePacket(cs[i].code, cs[i].payload)
    decreases i
  {
    if i > 0 {
      FramesAt(cs[1..], i - 1);
    }
  }

  /** Every written frame parses back to the command it was written for. */
  lemma FramesParseBack(cs: seq<Command>, i: nat)
    requires Encodable(cs) && i < |cs|
    ensures ParsePacket(Frames(cs)[i]) == Some(cs[i])
  {
    FramesAt(cs, i);
    ParseEncode(cs[i].code, cs[i].payload);
  }

  /** Sending `a` and then `b` writes the frames of `a + b`. */
  lemma {:induction false} FramesAppend(a: seq<Command>, b: seq<Command>)
    requires Encodable(a) && Encodable(b)
    ensures Encodable(a + b) && Frames(a + b) == Frames(a) + Frames(b)
  {
    if a == [] {
      assert a + b == b;
    } else {
      var ab := a + b;
      assert ab[0] == a[0] && ab[1..] == a[1..] + b;
      FramesAppend(a[1..], b);
      assert Frames(ab) == [EncodePacket(a[0].code, a[0].payload)] + Frames(a[1..] + b);
    }
  }
}
