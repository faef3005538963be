/** Reading a capture back: the file header and the record sequence, as a
    packet analyser would replay them. This is the partner of the writer:
    everything it writes parses back to the records of the accepted packets,
    in call order.
 */
module PcapReplay {
  import opened Bytes
  import opened Results
  import opened Encoders
  import opened PcapWriter

  datatype FileHeader = FileHeader(
    magic: int, versionMajor: int, versionMinor: int,
    thisZone: int, sigfigs: int, snaplen: int, linkType: int)

  /** One record as read back: time fields, both lengths and the data. */
  datatype RecordView = RecordView(tsSec: int, tsUsec: int, caplen: int, origlen: int, data: seq<Byte>)

  function ParseFileHeader(s: seq<Byte>): Option<FileHeader>
  {
    if |s| < GLOBAL_HEADER_LEN then None
    else Some(FileHeader(FromLE32(s[0..4]), FromLE16(s[4..6]), FromLE16(s[6..8]),
                         FromLE32(s[8..12]), FromLE32(s[12..16]), FromLE32(s[16..20]),
                         FromLE32(s[20..24])))
  }

  /** Bytes a sequence of records occupies in the stream. */
  function EncodedLength(rs: seq<RecordView>): nat
    decreases |rs|
  {
    if |rs| == 0 then 0 else RECORD_HEADER_LEN + |rs[0].data| + EncodedLength(rs[1..])
  }

  /** Splits the bytes after the file header into records, each a 16-byte
      header whose captured length says how many data bytes follow. */
  function ParseRecords(s: seq<Byte>): (r: Option<seq<RecordView>>)
    ensures r.Some? ==> EncodedLength(r.value) == |s|
    ensures r.Some? ==> forall i :: 0 <= i < |r.value| ==> r.value[i].caplen == |r.value[i].data|
    decreases |s|
  {
    if |s| == 0 then Some([])
    else if |s| < RECORD_HEADER_LEN then None
    else
      var caplen := FromLE32(s[8..12]);
      if |s| - RECORD_HEADER_LEN < caplen then None
      else
        match ParseRecords(s[RECORD_HEADER_LEN + caplen..])
        case None => None
        case Some(rest) =>
          var head := RecordView(FromLE32(s[0..4]), FromLE32(s[4..8]), caplen,
                                 FromLE32(s[12..16]), s[RECORD_HEADER_LEN..RECORD_HEADER_LEN + caplen]);
          Some([head] + rest)
  }

  function ParseCapture(s: seq<Byte>): Option<(FileHeader, seq<RecordView>)>
  {
    match ParseFileHeader(s)
    case None => None
    case Some(h) =>
      match ParseRecords(s[GLOBAL_HEADER_LEN..])
      case None => None
      case Some(rs) => Some((h, rs))
  }

  /** A record the writer can emit: every field fits 32 bits and both
      lengths equal the data length. */
  predicate Writable(r: RecordView)
  {
    && IsU32(r.tsSec) && IsU32(r.tsUsec)
    && r.caplen == |r.data| && r.origlen == |r.data| && IsU32(|r.data|)
  }

  function EncodeRecord(r: RecordView): seq<Byte>
    requires Writable(r)
  {
    LE32(r.tsSec) + LE32(r.tsUsec) + LE32(r.caplen) + LE32(r.origlen) + r.data
  }

  function EncodeRecords(rs: seq<RecordView>): seq<Byte>
    requires forall i :: 0 <= i < |rs| ==> Writable(rs[i])
    decreases |rs|
  {
    if |rs| == 0 then [] else EncodeRecord(rs[0]) + EncodeRecords(rs[1..])
  }

  /** The record an accepted packet yields. */
  function RecordOf(e: Encoder, p: Packet): (r: RecordView)
    requires Accepts(e, p)
    ensures Writable(r)
  {
    var t := SplitTimestamp(p.tsUsec);
    var payload := Payload(e, p).value;
    RecordView(t.seconds, t.micros, |payload|, |payload|, payload)
  }

  /** The records the packets `ps` yield through encoder `e`: one per
      accepted packet, in call order, rejected packets leaving no trace. */
  function ExpectedRecords(e: Encoder, ps: seq<Packet>): (rs: seq<RecordView>)
    ensures forall i :: 0 <= i < |rs| ==> Writable(rs[i])
    decreases |ps|
  {
    if |ps| == 0 then []
    else if Accepts(e, ps[0]) then [RecordOf(e, ps[0])] + ExpectedRecords(e, ps[1..])
    else ExpectedRecords(e, ps[1..])
  }

  /** Parsing undoes encoding, record by record. */
  lemma {:induction false} ParseEncodeRecords(rs: seq<RecordView>)
    requires forall i :: 0 <= i < |rs| ==> Writable(rs[i])
    ensures ParseRecords(EncodeRecords(rs)) == Some(rs)
    decreases |rs|
  {
    if |rs| > 0 {
      var r := rs[0];
      var s := EncodeRecords(rs);
      var tail := EncodeRecords(rs[1..]);
      assert s == EncodeRecord(r) + tail;
      assert s[0..4] == LE32(r.tsSec);
      assert s[4..8] == LE32(r.tsUsec);
      assert s[8..12] == LE32(r.caplen);
      assert s[12..16] == LE32(r.origlen);
      LE32RoundTrip(r.tsSec);
      LE32RoundTrip(r.tsUsec);
      LE32RoundTrip(r.caplen);
      LE32RoundTrip(r.origlen);
      assert s[RECORD_HEADER_LEN..RECORD_HEADER_LEN + r.caplen] == r.data;
      assert s[RECORD_HEADER_LEN + r.caplen..] == tail;
      ParseEncodeRecords(rs[1..]);
      assert [r] + rs[1..] == rs;
    }
  }

  /** The bytes one `write_packet` call adds to the sink: its record when
      the packet is accepted, nothing otherwise. */
  function Appended(e: Encoder, p: Packet): seq<Byte>
  {
    if Accepts(e, p) then EncodeRecord(RecordOf(e, p)) else []
  }

  /** One write appends exactly the encoding of its record, or nothing. */
  lemma WritePacketAppendsRecord(w: Writer, p: Packet)
    ensures WritePacket(w, p).writer.output == w.output + Appended(w.encoder, p)
  {
    if Accepts(w.encoder, p) {
      var t := SplitTimestamp(p.tsUsec);
      var payload := Payload(w.encoder, p).value;
      var header := RecordHeader(t, |payload|).value;
      assert header == LE32(t.seconds) + LE32(t.micros) + LE32(|payload|) + LE32(|payload|);
      assert WritePacket(w, p).writer.output == w.output + header + payload;
    } else {
      assert w.output + [] == w.output;
    }
  }

  /** Everything a sequence of writes adds to the sink, call by call. */
  function Emitted(e: Encoder, ps: seq<Packet>): seq<Byte>
    decreases |ps|
  {
    if |ps| == 0 then [] else Appended(e, ps[0]) + Emitted(e, ps[1..])
  }

  /** What the writes add is the encoding of the records of the accepted
      packets, in call order. */
  lemma {:induction false} EmittedIsEncodedRecords(e: Encoder, ps: seq<Packet>)
    ensures Emitted(e, ps) == EncodeRecords(ExpectedRecords(e, ps))
    decreases |ps|
  {
    if |ps| > 0 {
      EmittedIsEncodedRecords(e, ps[1..]);
      var later := ExpectedRecords(e, ps[1..]);
      if Accepts(e, ps[0]) {
        var r0 := RecordOf(e, ps[0]);
        assert ExpectedRecords(e, ps) == [r0] + later;
        assert ([r0] + later)[0] == r0;
        assert ([r0] + later)[1..] == later;
      } else {
        assert Appended(e, ps[0]) == [];
      }
    }
  }

  /** The sink after a sequence of writes holds what it held before, then
      what each call appended, in call order. */
  lemma {:induction false} WriteAllAppends(w: Writer, ps: seq<Packet>)
    ensures WriteAll(w, ps).output == w.output + Emitted(w.encoder, ps)
    decreases |ps|
  {
    if |ps| > 0 {
      var next := WritePacket(w, ps[0]).writer;
      var y, z := Appended(w.encoder, ps[0]), Emitted(w.encoder, ps[1..]);
      assert WriteAll(w, ps).output == WriteAll(next, ps[1..]).output;
      assert WriteAll(next, ps[1..]).output == next.output + z by {
        WriteAllAppends(next, ps[1..]);
      }
      assert next.output == w.output + y by {
        WritePacketAppendsRecord(w, ps[0]);
      }
      assert Emitted(w.encoder, ps) == y + z;
      AppendAssoc(w.output, y, z);
    } else {
      assert w.output + [] == w.output;
    }
  }

  /** The sink after a sequence of writes holds what it held before, then
      the records of the accepted packets in call order. */
  lemma WriteAllAppendsRecords(w: Writer, ps: seq<Packet>)
    ensures WriteAll(w, ps).output == w.output + EncodeRecords(ExpectedRecords(w.encoder, ps))
  {
    WriteAllAppends(w, ps);
    EmittedIsEncodedRecords(w.encoder, ps);
  }

  /** Replaying a capture yields the file header of its writer class and the
      records of the accepted packets, in call order. */
  lemma CaptureReplay(v: Variant, ps: seq<Packet>)
    ensures ParseCapture(Capture(v, ps))
            == Some((ExpectedFileHeader(v), ExpectedRecords(Encoder(v, 0), ps)))
  {
    var s := Capture(v, ps);
    var h := GlobalHeader(v);
    var rs := ExpectedRecords(Encoder(v, 0), ps);
    assert s == h + EncodeRecords(rs) by {
      WriteAllAppendsRecords(Open(v), ps);
    }
    assert ParseFileHeader(s) == Some(ExpectedFileHeader(v)) by {
      ParseFileHeaderIgnoresRest(h, EncodeRecords(rs));
      GlobalHeaderParses(v);
    }
    assert ParseRecords(s[GLOBAL_HEADER_LEN..]) == Some(rs) by {
      assert s[GLOBAL_HEADER_LEN..] == EncodeRecords(rs);
      ParseEncodeRecords(rs);
    }
  }

  /** Only the first 24 bytes of a capture make up its file header. */
  lemma ParseFileHeaderIgnoresRest(h: seq<Byte>, rest: seq<Byte>)
    requires |h| == GLOBAL_HEADER_LEN
    ensures ParseFileHeader(h + rest) == ParseFileHeader(h)
  {
    var s := h + rest;
    assert s[0..4] == h[0..4] && s[4..6] == h[4..6] && s[6..8] == h[6..8];
    assert s[8..12] == h[8..12] && s[12..16] == h[12..16];
    assert s[16..20] == h[16..20] && s[20..24] == h[20..24];
  }

  /** The file header every writer of class `v` starts with. */
  function ExpectedFileHeader(v: Variant): FileHeader
  {
    FileHeader(PCAP_MAGIC, VERSION_MAJOR, VERSION_MINOR, THIS_ZONE, SIGFIGS, SNAPLEN, LinkType(v))
  }

  /** The 24 header bytes read back as the libpcap constants and the link
      type of the writer class. */
  lemma GlobalHeaderParses(v: Variant)
    ensures ParseFileHeader(GlobalHeader(v)) == Some(ExpectedFileHeader(v))
  {
    var magic, major, minor := LE32(PCAP_MAGIC), LE16(VERSION_MAJOR), LE16(VERSION_MINOR);
    var zone, sig, snap, lt := LE32(THIS_ZONE), LE32(SIGFIGS), LE32(SNAPLEN), LE32(LinkType(v));
    var s := GlobalHeader(v);
    assert s[0..4] == magic && s[4..6] == major && s[6..8] == minor;
    assert s[8..12] == zone && s[12..16] == sig;
    assert s[16..20] == snap && s[20..24] == lt;
    LE32RoundTrip(PCAP_MAGIC);
    LE16RoundTrip(VERSION_MAJOR);
    LE16RoundTrip(VERSION_MINOR);
    LE32RoundTrip(THIS_ZONE);
    LE32RoundTrip(SIGFIGS);
    LE32RoundTrip(SNAPLEN);
    LE32RoundTrip(LinkType(v));
  }
}
