/** The three payload encoders of the capture writer: one per link-layer type.

    Each takes a captured Link-Layer frame and its metadata and returns the
    record payload, or `StructError` wherever Python's `pack` would raise.
    Frames are not validated: a frame shorter than the 10-byte prefix is
    sliced exactly as Python slices it (`frame[10:]` is then empty and
    `frame[:10]` is the whole frame).
 */
module Encoders {
  import opened Bytes
  import opened Results

  /** Length of the frame prefix that every encoder strips or repositions. */
  const PREFIX_LEN: nat := 10

  /** Placeholder for the Link-Layer CRC; no CRC is ever computed. */
  const FAKE_CRC: seq<Byte> := [0, 0, 0]

  /** The PHDR "noise power" field, a constant -100 dBm. */
  const PHDR_NOISE: int := -100

  /** The PHDR flags word. */
  const PHDR_FLAGS: int := 0x813

  /** Identifier byte opening every Nordic BLE header. */
  const BTLEJACK_ID: int := 0xDC

  /** Header length the Nordic BLE header declares (it is in fact 7 bytes). */
  const NORDIC_DECLARED_HEADER_LEN: int := 6

  /** Flags byte of the Nordic BLE header. */
  const NORDIC_FLAGS: int := 1

  /** Event type of the Nordic BLE header: a received packet. */
  const EVENT_PACKET: int := 0x06

  /** The cap the Nordic encoder applies to its size field. */
  const NORDIC_SIZE_CAP: int := 256

  /** Python's `s[n:]`. */
  function Drop<T>(s: seq<T>, n: nat): (r: seq<T>)
    ensures |s| <= n ==> r == []
    ensures n < |s| ==> |r| == |s| - n && forall i :: 0 <= i < |r| ==> r[i] == s[n + i]
  {
    if |s| <= n then [] else s[n..]
  }

  /** Python's `s[:n]`. */
  function Take<T>(s: seq<T>, n: nat): (r: seq<T>)
    ensures |r| == if |s| <= n then |s| else n
    ensures forall i :: 0 <= i < |r| ==> r[i] == s[i]
  {
    if |s| <= n then s else s[..n]
  }

  /** Slicing at the same point splits a sequence without loss. */
  lemma TakeDrop<T>(s: seq<T>, n: nat)
    ensures Take(s, n) + Drop(s, n) == s
  {
    if n < |s| {
      assert s[..n] + s[n..] == s;
    }
  }

  /** Length of `frame[10:]`. */
  function TailLength(frameLength: nat): nat
  {
    if frameLength <= PREFIX_LEN then 0 else frameLength - PREFIX_LEN
  }

  /** The Link-Layer packet written by the plain and PHDR encoders:
      access address, frame after its prefix, placeholder CRC. */
  function LlPacket(aa: int, frame: seq<Byte>): seq<Byte>
    requires IsU32(aa)
  {
    LE32(aa) + Drop(frame, PREFIX_LEN) + FAKE_CRC
  }

  /** `PcapBleWriter.payload`, link type LINKTYPE_BLUETOOTH_LE_LL. */
  function PlainPayload(aa: int, frame: seq<Byte>): (r: Result<seq<Byte>>)
    ensures r.Ok? <==> IsU32(aa)
    ensures r.Ok? ==>
      && |r.value| == 7 + TailLength(|frame|)
      && FromLE32(r.value[..4]) == aa
      && r.value[4..|r.value| - 3] == Drop(frame, PREFIX_LEN)
      && r.value[|r.value| - 3..] == FAKE_CRC
  {
    if !IsU32(aa) then Err(StructError)
    else
      var r := LlPacket(aa, frame);
      assert r[..4] == LE32(aa);
      LE32RoundTrip(aa);
      Ok(r)
  }

  /** The bytes of the PHDR pseudo-header (`pack('<BbbBIH', ...)`). */
  function PhdrHeader(aa: int, chan: int, rssi: int): seq<Byte>
    requires IsU8(chan) && IsI8(rssi) && IsU32(aa)
  {
    [chan, I8(rssi), I8(PHDR_NOISE), 0] + LE32(aa) + LE16(PHDR_FLAGS)
  }

  /** `PcapBlePHDRWriter.payload`, link type LINKTYPE_BLUETOOTH_LE_LL_WITH_PHDR.
      The pseudo-header carries the caller's RSSI as signal power and the
      constant -100 as noise power; the access address appears twice. */
  function PhdrPayload(aa: int, frame: seq<Byte>, chan: int, rssi: int): (r: Result<seq<Byte>>)
    ensures r.Ok? <==> IsU8(chan) && IsI8(rssi) && IsU32(aa)
    ensures r.Ok? ==>
      && |r.value| == 17 + TailLength(|frame|)
      && r.value[0] == chan
      && FromI8(r.value[1]) == rssi
      && FromI8(r.value[2]) == PHDR_NOISE
      && r.value[3] == 0
      && FromLE32(r.value[4..8]) == aa
      && FromLE16(r.value[8..10]) == PHDR_FLAGS
      && FromLE32(r.value[10..14]) == aa
      && r.value[14..|r.value| - 3] == Drop(frame, PREFIX_LEN)
      && r.value[|r.value| - 3..] == FAKE_CRC
  {
    if !(IsU8(chan) && IsI8(rssi) && IsU32(aa)) then Err(StructError)
    else
      var r := PhdrHeader(aa, chan, rssi) + LlPacket(aa, frame);
      assert r[4..8] == LE32(aa);
      assert r[8..10] == LE16(PHDR_FLAGS);
      assert r[10..14] == LE32(aa);
      LE32RoundTrip(aa);
      LE16RoundTrip(PHDR_FLAGS);
      Ok(r)
  }

  /** Number of frame bytes that precede the access address in a Nordic body. */
  function NordicSplit(frame: seq<Byte>): nat
  {
    if |frame| <= PREFIX_LEN then |frame| else PREFIX_LEN
  }

  /** The Nordic BLE body: frame prefix, access address, rest of the frame,
      placeholder CRC. */
  function NordicBody(aa: int, frame: seq<Byte>): (body: seq<Byte>)
    requires IsU32(aa)
    ensures |body| == |frame| + 7
    ensures var k := NordicSplit(frame);
      && body[..k] == Take(frame, PREFIX_LEN)
      && FromLE32(body[k..k + 4]) == aa
      && body[k + 4..|body| - 3] == Drop(frame, PREFIX_LEN)
      && body[|body| - 3..] == FAKE_CRC
  {
    var k := NordicSplit(frame);
    var body := Take(frame, PREFIX_LEN) + LE32(aa) + Drop(frame, PREFIX_LEN) + FAKE_CRC;
    assert body[k..k + 4] == LE32(aa);
    LE32RoundTrip(aa);
    body
  }

  /** The Nordic BLE header, `pack('<BBBBHB', ...)`: seven bytes. */
  function NordicHeader(size: int, pktCounter: int): (h: seq<Byte>)
    requires IsU8(size) && IsU16(pktCounter)
    ensures |h| == 7
    ensures && h[0] == BTLEJACK_ID && h[1] == NORDIC_DECLARED_HEADER_LEN
            && h[2] == size && h[3] == NORDIC_FLAGS
            && FromLE16(h[4..6]) == pktCounter && h[6] == EVENT_PACKET
  {
    var h := [BTLEJACK_ID, NORDIC_DECLARED_HEADER_LEN, size, NORDIC_FLAGS]
             + LE16(pktCounter) + [EVENT_PACKET];
    assert h[4..6] == LE16(pktCounter);
    LE16RoundTrip(pktCounter);
    h
  }

  /** `PcapNordicTapWriter.payload`, link type LINKTYPE_NORDIC_BLE.
      The size field is capped at 256 and packed with the `B` code, so a
      body of 256 bytes or more raises instead of being truncated, and an
      accepted payload carries its whole body; the header is 7 bytes
      although it declares 6. */
  function NordicPayload(pktCounter: int, aa: int, frame: seq<Byte>): (r: Result<seq<Byte>>)
    ensures r.Ok? <==> IsU32(aa) && IsU16(pktCounter) && |frame| + 7 < NORDIC_SIZE_CAP
    ensures r.Ok? ==>
      && |r.value| == |frame| + 14
      && r.value[0] == BTLEJACK_ID
      && r.value[1] == NORDIC_DECLARED_HEADER_LEN
      && r.value[2] == |r.value| - 7
      && r.value[3] == NORDIC_FLAGS
      && FromLE16(r.value[4..6]) == pktCounter
      && r.value[6] == EVENT_PACKET
      && r.value[7..] == NordicBody(aa, frame)
  {
    if !IsU32(aa) then Err(StructError)
    else
      var body := NordicBody(aa, frame);
      var size := if |body| > NORDIC_SIZE_CAP then NORDIC_SIZE_CAP else |body|;
      if !(IsU8(size) && IsU16(pktCounter)) then Err(StructError)
      else
        var header := NordicHeader(size, pktCounter);
        var r := header + Take(body, size);
        assert r[..7] == header;
        assert r[4..6] == header[4..6];
        Ok(r)
  }

  /** The PHDR payload is the plain payload behind a 10-byte pseudo-header:
      it exists exactly when the plain one does and channel and RSSI fit. */
  lemma PhdrExtendsPlain(aa: int, frame: seq<Byte>, chan: int, rssi: int)
    ensures PhdrPayload(aa, frame, chan, rssi).Ok?
            <==> PlainPayload(aa, frame).Ok? && IsU8(chan) && IsI8(rssi)
    ensures PhdrPayload(aa, frame, chan, rssi).Ok? ==>
      && |PhdrPayload(aa, frame, chan, rssi).value| == |PlainPayload(aa, frame).value| + 10
      && PhdrPayload(aa, frame, chan, rssi).value[10..] == PlainPayload(aa, frame).value
  {
    if PhdrPayload(aa, frame, chan, rssi).Ok? {
      var phdr := PhdrPayload(aa, frame, chan, rssi).value;
      var plain := PlainPayload(aa, frame).value;
      assert phdr[10..] == LlPacket(aa, frame);
      assert plain == LlPacket(aa, frame);
    }
  }

  /** The worked example of the plain layout: access address 0x8E89BED6 and
      a frame of ten zero bytes followed by AA BB CC. */
  lemma PlainExample()
    ensures PlainPayload(0x8E89BED6, [0, 0, 0, 0, 0, 0, 0, 0, 0, 0, 0xAA, 0xBB, 0xCC])
            == Ok([0xD6, 0xBE, 0x89, 0x8E, 0xAA, 0xBB, 0xCC, 0, 0, 0])
  {
    var frame: seq<Byte> := [0, 0, 0, 0, 0, 0, 0, 0, 0, 0, 0xAA, 0xBB, 0xCC];
    assert LE16(0xBED6) == [0xD6, 0xBE];
    assert LE16(0x8E89) == [0x89, 0x8E];
    assert LE32(0x8E89BED6) == [0xD6, 0xBE, 0x89, 0x8E];
    assert Drop(frame, PREFIX_LEN) == [0xAA, 0xBB, 0xCC];
    assert LlPacket(0x8E89BED6, frame) == [0xD6, 0xBE, 0x89, 0x8E, 0xAA, 0xBB, 0xCC, 0, 0, 0];
  }

  /** A Nordic payload never loses frame bytes: the frame is the bytes before
      and after the access address in its body. */
  lemma NordicRecoversFrame(pktCounter: int, aa: int, frame: seq<Byte>)
    requires NordicPayload(pktCounter, aa, frame).Ok?
    ensures var r := NordicPayload(pktCounter, aa, frame).value;
            var k := NordicSplit(frame);
            && FromLE32(r[7 + k..11 + k]) == aa
            && r[7..7 + k] + r[11 + k..|r| - 3] == frame
  {
    var r := NordicPayload(pktCounter, aa, frame).value;
    var body := NordicBody(aa, frame);
    var k := NordicSplit(frame);
    assert r[7..] == body;
    assert r[7..7 + k] == body[..k];
    assert r[7 + k..11 + k] == body[k..k + 4];
    assert r[11 + k..|r| - 3] == body[k + 4..|body| - 3];
    TakeDrop(frame, PREFIX_LEN);
  }

  /** The truncating branch of the Nordic encoder never yields a payload:
      every body of 256 bytes or more is rejected, so no accepted payload
      exceeds 7 + 255 bytes. */
  lemma NordicNeverTruncates(pktCounter: int, aa: int, frame: seq<Byte>)
    requires IsU32(aa)
    ensures |NordicBody(aa, frame)| >= NORDIC_SIZE_CAP ==> NordicPayload(pktCounter, aa, frame).Err?
    ensures NordicPayload(pktCounter, aa, frame).Ok? ==>
      |NordicPayload(pktCounter, aa, frame).value| <= 7 + 255
  {
  }
}
