/** The capture writer: a libpcap file header written once, then one record
    (16-byte header and payload) per accepted packet, appended in call order.

    The byte sink is an append-only sequence of octets; choosing a file or an
    in-memory buffer, and closing it, are outside this model.
 */
module PcapWriter {
  import opened Bytes
  import opened Results
  import opened Encoders

  const PCAP_MAGIC: int := 0xa1b2c3d4
  const VERSION_MAJOR: int := 2
  const VERSION_MINOR: int := 4
  const THIS_ZONE: int := 0
  const SIGFIGS: int := 0
  const SNAPLEN: int := 65535

  const LINKTYPE_BLUETOOTH_LE_LL: int := 251
  const LINKTYPE_BLUETOOTH_LE_LL_WITH_PHDR: int := 256
  const LINKTYPE_NORDIC_BLE: int := 272

  const GLOBAL_HEADER_LEN: nat := 24
  const RECORD_HEADER_LEN: nat := 16

  /** Divisor turning the caller's timestamp into record seconds. */
  const SECONDS_DIVISOR: int := 10_000_000

  /** Scale subtracted per second to form the record's sub-second field;
      it differs from `SECONDS_DIVISOR`, as in the writer being modelled. */
  const REMAINDER_SCALE: int := 1_000_000

  /** The three writer classes, one per link-layer type. */
  datatype Variant = Plain | WithPhdr | NordicTap

  function LinkType(v: Variant): int
  {
    match v
    case Plain => LINKTYPE_BLUETOOTH_LE_LL
    case WithPhdr => LINKTYPE_BLUETOOTH_LE_LL_WITH_PHDR
    case NordicTap => LINKTYPE_NORDIC_BLE
  }

  /** The writer class a link-type code in a file header stands for. */
  function VariantOf(linkType: int): (r: Option<Variant>)
    ensures r.Some? ==> LinkType(r.value) == linkType
  {
    if linkType == LINKTYPE_BLUETOOTH_LE_LL then Some(Plain)
    else if linkType == LINKTYPE_BLUETOOTH_LE_LL_WITH_PHDR then Some(WithPhdr)
    else if linkType == LINKTYPE_NORDIC_BLE then Some(NordicTap)
    else None
  }

  /** Each writer class has its own link-type code, so the file header
      tells a reader which payload layout every record uses. */
  lemma LinkTypeIdentifiesVariant(v: Variant)
    ensures VariantOf(LinkType(v)) == Some(v)
    ensures forall u: Variant :: LinkType(u) == LinkType(v) ==> u == v
  {
  }

  /** `write_header`: `pack('<IHHIIII', magic, 2, 4, 0, 0, 65535, DLT)`. */
  function GlobalHeader(v: Variant): (h: seq<Byte>)
    ensures |h| == GLOBAL_HEADER_LEN
  {
    LE32(PCAP_MAGIC) + LE16(VERSION_MAJOR) + LE16(VERSION_MINOR)
    + LE32(THIS_ZONE) + LE32(SIGFIGS) + LE32(SNAPLEN) + LE32(LinkType(v))
  }

  /** The two time fields of a record header. */
  datatype Timestamp = Timestamp(seconds: int, micros: int)

  /** The split done by `write_packet`: seconds by floor division by ten
      million (Python's `//`; Dafny's `/` agrees for a positive divisor),
      the remainder taken against one million per second. The sub-second
      field is therefore the true remainder plus nine million per second. */
  function SplitTimestamp(tsUsec: int): (t: Timestamp)
    ensures t.seconds * SECONDS_DIVISOR <= tsUsec < (t.seconds + 1) * SECONDS_DIVISOR
    ensures t.micros == tsUsec % SECONDS_DIVISOR + (SECONDS_DIVISOR - REMAINDER_SCALE) * t.seconds
    ensures tsUsec >= 0 ==> t.seconds >= 0 && t.micros >= 0
    ensures tsUsec < 0 ==> t.seconds < 0
  {
    var s := tsUsec / SECONDS_DIVISOR;
    Timestamp(s, tsUsec - s * REMAINDER_SCALE)
  }

  /** Both time fields survive `pack('<I', ...)`. */
  predicate TimestampFits(tsUsec: int)
  {
    IsU32(SplitTimestamp(tsUsec).seconds) && IsU32(SplitTimestamp(tsUsec).micros)
  }

  /** From ten million on, the sub-second field is at least nine million:
      it is never a normalised microsecond count. */
  lemma MicrosNotNormalised(tsUsec: int)
    requires tsUsec >= SECONDS_DIVISOR
    ensures SplitTimestamp(tsUsec).micros >= 9 * REMAINDER_SCALE
  {
    var t := SplitTimestamp(tsUsec);
    assert t.seconds >= 1;
    assert t.micros == tsUsec - t.seconds * REMAINDER_SCALE;
    assert t.micros >= t.seconds * (SECONDS_DIVISOR - REMAINDER_SCALE);
  }

  /** First timestamp whose record cannot be written: 2^32 + 477 * 10^6.
      Its seconds field is 477 and its sub-second field is exactly 2^32. */
  const TIMESTAMP_LIMIT: int := 4_771_967_296

  /** Which timestamps a record header can carry: exactly those in
      0..TIMESTAMP_LIMIT-1. Below 4_770_000_000 (seconds up to 476) the
      sub-second field stays under 2^32; with seconds 477 it reaches 2^32 at
      TIMESTAMP_LIMIT; from seconds 478 on it is at least 9 * 10^6 * 478,
      above 2^32; a negative timestamp has negative seconds. */
  lemma TimestampRange(tsUsec: int)
    ensures TimestampFits(tsUsec) <==> 0 <= tsUsec < TIMESTAMP_LIMIT
    ensures SplitTimestamp(TIMESTAMP_LIMIT - 1) == Timestamp(477, 0xFFFF_FFFF)
    ensures SplitTimestamp(TIMESTAMP_LIMIT) == Timestamp(477, 0x1_0000_0000)
    ensures tsUsec < 0 ==> SplitTimestamp(tsUsec).seconds < 0
  {
    var t := SplitTimestamp(tsUsec);
    assert t.micros == tsUsec - t.seconds * REMAINDER_SCALE;
    if 0 <= tsUsec {
      if t.seconds <= 476 {
        assert t.micros < 9 * REMAINDER_SCALE * t.seconds + SECONDS_DIVISOR;
        assert t.micros < 0x1_0000_0000;
      } else if t.seconds == 477 {
        assert t.micros == tsUsec - 477_000_000;
      } else {
        assert t.micros >= 9 * REMAINDER_SCALE * t.seconds;
        assert t.micros >= 9 * REMAINDER_SCALE * 478;
      }
    }
  }

  /** Two worked splits: 25_000_000 gives (2, 23_000_000); 12_345_678_901
      gives (1234, 11_111_678_901), whose sub-second field does not fit. */
  lemma TimestampExamples()
    ensures SplitTimestamp(25_000_000) == Timestamp(2, 23_000_000)
    ensures SplitTimestamp(12_345_678_901) == Timestamp(1234, 11_111_678_901)
    ensures TimestampFits(25_000_000)
    ensures !TimestampFits(12_345_678_901)
  {
  }

  /** `write_packet_header`: `pack('<IIII', ts_sec, ts_usec, size, size)`. */
  function RecordHeader(t: Timestamp, size: int): (r: Result<seq<Byte>>)
    ensures r.Ok? <==> IsU32(t.seconds) && IsU32(t.micros) && IsU32(size)
    ensures r.Ok? ==>
      && |r.value| == RECORD_HEADER_LEN
      && FromLE32(r.value[0..4]) == t.seconds
      && FromLE32(r.value[4..8]) == t.micros
      && FromLE32(r.value[8..12]) == size
      && FromLE32(r.value[12..16]) == size
  {
    if !(IsU32(t.seconds) && IsU32(t.micros) && IsU32(size)) then Err(StructError)
    else
      var h := LE32(t.seconds) + LE32(t.micros) + LE32(size) + LE32(size);
      assert h[0..4] == LE32(t.seconds) && h[4..8] == LE32(t.micros);
      assert h[8..12] == LE32(size) && h[12..16] == LE32(size);
      LE32RoundTrip(t.seconds);
      LE32RoundTrip(t.micros);
      LE32RoundTrip(size);
      Ok(h)
  }

  /** The per-writer encoder state: the chosen class and the Nordic packet
      counter, which is set to 0 on construction and never changed. */
  datatype Encoder = Encoder(variant: Variant, pktCounter: int)

  /** The arguments of one `write_packet` call. */
  datatype Packet = Packet(tsUsec: int, aa: int, chan: int, rssi: int, frame: seq<Byte>)

  /** Payload length per link type, as a function of the frame length alone. */
  function PayloadLength(v: Variant, frameLength: nat): nat
  {
    match v
    case Plain => 7 + TailLength(frameLength)
    case WithPhdr => 17 + TailLength(frameLength)
    case NordicTap => frameLength + 14
  }

  /** The inputs each encoder accepts without a `struct` range error. */
  predicate PayloadAccepted(e: Encoder, p: Packet)
  {
    && IsU32(p.aa)
    && match e.variant
       case Plain => true
       case WithPhdr => IsU8(p.chan) && IsI8(p.rssi)
       case NordicTap => IsU16(e.pktCounter) && |p.frame| + 7 < NORDIC_SIZE_CAP
  }

  /** The overridden `payload` method, dispatched on the writer class. */
  function Payload(e: Encoder, p: Packet): (r: Result<seq<Byte>>)
    ensures r.Ok? <==> PayloadAccepted(e, p)
    ensures r.Ok? ==> |r.value| == PayloadLength(e.variant, |p.frame|)
  {
    match e.variant
    case Plain => PlainPayload(p.aa, p.frame)
    case WithPhdr => PhdrPayload(p.aa, p.frame, p.chan, p.rssi)
    case NordicTap => NordicPayload(e.pktCounter, p.aa, p.frame)
  }

  /** Whether `write_packet` completes without raising. */
  predicate Accepts(e: Encoder, p: Packet)
  {
    && PayloadAccepted(e, p)
    && TimestampFits(p.tsUsec)
    && IsU32(PayloadLength(e.variant, |p.frame|))
  }

  /** A writer: its encoder state and everything written to its sink so far. */
  datatype Writer = Writer(encoder: Encoder, output: seq<Byte>)

  /** Construction: the file header is the first and only thing written. */
  function Open(v: Variant): (w: Writer)
    ensures w.encoder == Encoder(v, 0)
    ensures |w.output| == GLOBAL_HEADER_LEN
  {
    Writer(Encoder(v, 0), GlobalHeader(v))
  }

  datatype Status = Written | Rejected(error: Error)

  /** The writer after one `write_packet` call, and whether the call raised. */
  datatype Step = Step(writer: Writer, status: Status)

  /** `write_packet`. The payload and the record header are both packed
      before anything reaches the sink, so a call that raises writes nothing. */
  function WritePacket(w: Writer, p: Packet): (r: Step)
    ensures r.status.Written? <==> Accepts(w.encoder, p)
    ensures r.writer.encoder == w.encoder
    ensures r.status.Rejected? ==> r.writer == w
    ensures r.status.Written? ==>
      && |r.writer.output| == |w.output| + RECORD_HEADER_LEN + PayloadLength(w.encoder.variant, |p.frame|)
      && r.writer.output[..|w.output|] == w.output
  {
    var t := SplitTimestamp(p.tsUsec);
    match Payload(w.encoder, p)
    case Err(e) => Step(w, Rejected(e))
    case Ok(payload) =>
      match RecordHeader(t, |payload|)
      case Err(e) => Step(w, Rejected(e))
      case Ok(header) =>
        var o := w.output + header + payload;
        assert o[..|w.output|] == w.output;
        Step(Writer(w.encoder, o), Written)
  }

  /** A sequence of `write_packet` calls in order; a call that raises leaves
      the writer as it was, and the next call proceeds from there. */
  function WriteAll(w: Writer, ps: seq<Packet>): (r: Writer)
    ensures r.encoder == w.encoder
    decreases |ps|
  {
    if |ps| == 0 then w
    else WriteAll(WritePacket(w, ps[0]).writer, ps[1..])
  }

  /** Total size of the records the accepted packets of `ps` produce. */
  function AcceptedLength(e: Encoder, ps: seq<Packet>): nat
    decreases |ps|
  {
    if |ps| == 0 then 0
    else
      (if Accepts(e, ps[0]) then RECORD_HEADER_LEN + PayloadLength(e.variant, |ps[0].frame|) else 0)
      + AcceptedLength(e, ps[1..])
  }

  /** The whole capture produced by a writer of class `v` given `ps`. */
  function Capture(v: Variant, ps: seq<Packet>): seq<Byte>
  {
    WriteAll(Open(v), ps).output
  }

  /** Writing grows the sink by exactly one record per accepted packet. */
  lemma {:induction false} WriteAllLength(w: Writer, ps: seq<Packet>)
    ensures |WriteAll(w, ps).output| == |w.output| + AcceptedLength(w.encoder, ps)
    decreases |ps|
  {
    if |ps| > 0 {
      WriteAllLength(WritePacket(w, ps[0]).writer, ps[1..]);
    }
  }

  /** A capture is 24 bytes of file header plus one record per accepted packet. */
  lemma CaptureLength(v: Variant, ps: seq<Packet>)
    ensures |Capture(v, ps)| == GLOBAL_HEADER_LEN + AcceptedLength(Encoder(v, 0), ps)
  {
    WriteAllLength(Open(v), ps);
  }

  /** The Nordic packet counter stays 0 however many packets are written, so
      every Nordic payload carries 00 00 in its counter field. */
  lemma NordicCounterStaysZero(ps: seq<Packet>, p: Packet)
    ensures WriteAll(Open(NordicTap), ps).encoder.pktCounter == 0
    ensures var e := WriteAll(Open(NordicTap), ps).encoder;
            Payload(e, p).Ok? ==> Payload(e, p).value[4..6] == [0, 0]
  {
    var e := WriteAll(Open(NordicTap), ps).encoder;
    if Payload(e, p).Ok? {
      FromLE16RoundTrip(Payload(e, p).value[4..6]);
    }
  }
}
