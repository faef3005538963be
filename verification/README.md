# BLE capture writer: a Dafny model

This project models the libpcap writer of the Sniffle BLE sniffer
(`python_cli/pcap.py`). The writer turns captured Bluetooth Low Energy
Link-Layer frames into a libpcap capture stream. It writes a 24-byte file
header once, when the writer is built. After that, each packet gets a
16-byte record header and a payload. The payload layout depends on the
writer class:

- `PcapBleWriter` uses LINKTYPE_BLUETOOTH_LE_LL (251).
- `PcapBlePHDRWriter` uses LINKTYPE_BLUETOOTH_LE_LL_WITH_PHDR (256).
- `PcapNordicTapWriter` uses LINKTYPE_NORDIC_BLE (272).

The model is purely functional:

- `Results` turns the `struct.error` that `pack` raises into `Err(StructError)`.
- `Bytes` holds the ranges of the `B`, `b`, `H` and `I` format codes, the
  packing of `b`, `H` and `I` (a `B` value is its own byte), the read-back
  functions and the round-trip lemmas.
- `Encoders` holds the three payload encoders.
- `PcapWriter` holds the file header, the timestamp split, the record header,
  the writer state (`Encoder` = class plus Nordic packet counter) and the
  sink. The sink is an append-only byte sequence. `write_packet` is
  `WritePacket`, and a run of calls is `WriteAll`.
- `PcapReplay` reads a capture back into its file header and records. It
  proves that a capture parses to the records of the accepted packets, in
  call order.

Behaviour modelled exactly as the code has it, including where the code
does something its own names and constants suggest it did not mean:

- PHDR pseudo-header. Byte 1 is the caller's RSSI and the constant -100 is
  byte 2. This matches the LINKTYPE_BLUETOOTH_LE_LL_WITH_PHDR registry entry,
  where byte 1 is signal power and byte 2 is noise power.
- Nordic header. It is packed with `'<BBBBHB'`, so seven bytes are packed,
  but its length field says 6.
- Nordic size field. The cap at 256 suggests the body was meant to be
  truncated, but 256 does not fit the `B` code, so any body of 256 bytes or
  more makes `pack` raise. The truncating branch never produces a payload,
  and an accepted payload is at most 7 + 255 = 262 bytes.
- Timestamps. Seconds are `ts // 10_000_000`, but the sub-second field is
  `ts - seconds * 1_000_000`, so that field is not a normalised microsecond
  count. A timestamp can be written exactly when it lies in
  0..4_771_967_295. At 4_771_967_296 = 2^32 + 477 * 10^6 the sub-second field
  reaches 2^32 and the write raises.
- Failed writes. Every `pack` runs before the first `output.write`, so a call
  that raises leaves the sink unchanged.
- Short frames. A frame shorter than 10 bytes is sliced as Python slices
  it: `frame[10:]` is empty and `frame[:10]` is the whole frame.

## Model

| member | source | states |
|---|---|---|
| Bytes.LE32RoundTrip | python_cli/pcap.py:89 | the four bytes `pack('<I', x)` produces read back, little-endian, as x, for every x in 0..2^32-1 |
| Bytes.LE16RoundTrip | python_cli/pcap.py:158-166 | the two bytes `pack('<H', x)` produces read back as x, for every x in 0..65535 |
| Bytes.LE32Injective | python_cli/pcap.py:74-80 | two 32-bit values pack to the same four bytes exactly when they are equal |
| Bytes.I8 | python_cli/pcap.py:123-131 | the `b` code's byte for a value in -128..127 reads back, as a signed byte, as that value; non-negative values are stored as themselves |
| Encoders.PlainPayload | python_cli/pcap.py:83-89 | fails exactly when the access address is outside 0..2^32-1; otherwise the payload is 7 + max(0, len-10) bytes, its first four bytes decode to the access address, the middle is frame[10:] and the last three bytes are zero |
| Encoders.PlainExample | python_cli/pcap.py:89 | access address 0x8E89BED6 with ten zero bytes then AA BB CC gives D6 BE 89 8E AA BB CC 00 00 00 |
| Encoders.PhdrPayload | python_cli/pcap.py:119-133 | fails exactly when channel is outside 0..255, RSSI is outside -128..127 or the access address is outside 0..2^32-1; otherwise byte 0 is the channel, byte 1 reads back as the caller's RSSI, byte 2 as -100, byte 3 is 0, the access address is at offsets 4 and 10, the flags word 0x813 is at 8, then frame[10:] and three zero bytes |
| Encoders.PhdrExtendsPlain | python_cli/pcap.py:119-133 | the PHDR payload exists exactly when the plain payload exists and channel and RSSI fit; it is then the plain payload behind 10 extra bytes |
| Encoders.NordicBody | python_cli/pcap.py:152-153 | the body is the frame plus 7 bytes: up to ten frame bytes, the access address, the rest of the frame and three zero bytes |
| Encoders.NordicHeader | python_cli/pcap.py:158-166 | the header is 7 bytes: 0xDC, the declared length 6, the size, flags 1, the counter little-endian and event type 0x06 |
| Encoders.NordicPayload | python_cli/pcap.py:148-168 | fails exactly when the access address or counter is out of range or the frame is 249 bytes or longer; otherwise the size byte equals the whole body length and the output is the 7-byte header followed by the complete body |
| Encoders.NordicRecoversFrame | python_cli/pcap.py:152-168 | an accepted Nordic payload holds the access address after the first min(10, len) frame bytes, and the bytes around it give back the frame |
| Encoders.NordicNeverTruncates | python_cli/pcap.py:154-168 | a body of 256 bytes or more is always rejected, so the truncating branch yields nothing and no accepted payload exceeds 262 bytes |
| PcapWriter.VariantOf | python_cli/pcap.py:42 | a link-type code maps back only to the writer class that declares it |
| PcapWriter.LinkTypeIdentifiesVariant | python_cli/pcap.py:42-141 | the `DLT` constants of the three writer classes (251, 256 and 272) are distinct, and each code maps back to its class |
| PcapWriter.GlobalHeader | python_cli/pcap.py:54-68 | the file header is exactly 24 bytes |
| PcapReplay.GlobalHeaderParses | python_cli/pcap.py:54-68 | the 24 header bytes read back as magic 0xa1b2c3d4, version 2.4, zone 0, accuracy 0, snapshot length 65535 and the writer class's link type |
| PcapWriter.SplitTimestamp | python_cli/pcap.py:97-98 | the seconds field is the floor of the timestamp over ten million; the sub-second field is the remainder modulo ten million plus nine million per whole second; both fields are non-negative for a non-negative timestamp, and the seconds field is negative for a negative one |
| PcapWriter.MicrosNotNormalised | python_cli/pcap.py:97-98 | from ten million on, the sub-second field is at least nine million, never a value below one million |
| PcapWriter.TimestampRange | python_cli/pcap.py:97-100 | a timestamp can be written exactly when it lies in 0..4_771_967_295; 4_771_967_295 splits into (477, 2^32 - 1) and 2^32 + 477 * 10^6 into (477, 2^32), where the sub-second field first overflows; every negative timestamp has a negative seconds field |
| PcapWriter.TimestampExamples | python_cli/pcap.py:97-98 | 25_000_000 splits into (2, 23_000_000) and can be written; 12_345_678_901 splits into (1234, 11_111_678_901) and cannot |
| PcapWriter.RecordHeader | python_cli/pcap.py:70-81 | fails exactly when a time field or the size is outside 0..2^32-1; otherwise 16 bytes that read back as seconds, sub-second field, and the size twice |
| PcapWriter.Payload | python_cli/pcap.py:99 | the class-specific payload exists exactly under the accepted-input conditions of that class, and its length depends only on the class and the frame length |
| PcapWriter.Open | python_cli/pcap.py:44-146 | a new writer has written 24 bytes and starts with Nordic packet counter 0 |
| PcapWriter.WritePacket | python_cli/pcap.py:91-101 | a write succeeds exactly when payload, timestamp and length all fit their pack codes; a failed write leaves the writer unchanged; a successful one keeps the earlier bytes and adds 16 + payload-length bytes; the encoder state never changes |
| PcapReplay.WritePacketAppendsRecord | python_cli/pcap.py:91-101 | a write appends exactly LE32(seconds), LE32(sub-second field), LE32(n), LE32(n) and the n payload bytes when accepted, and nothing otherwise |
| PcapWriter.WriteAll | python_cli/pcap.py:91-101 | a run of writes never changes the writer class or the Nordic packet counter |
| PcapWriter.WriteAllLength | python_cli/pcap.py:91-101 | a run of writes grows the sink by 16 + payload length for each accepted packet and by nothing for a rejected one |
| PcapWriter.CaptureLength | python_cli/pcap.py:44-101 | a capture is 24 + sum(16 + payload length) bytes over the accepted packets |
| PcapWriter.NordicCounterStaysZero | python_cli/pcap.py:144-166 | after any run of writes the Nordic packet counter is still 0, so every Nordic payload has 00 00 at bytes 4..5 |
| PcapReplay.ParseRecords | python_cli/pcap.py:70-81 | a successful parse covers every byte, record by record, and each record's captured length equals its data length |
| PcapReplay.ParseEncodeRecords | python_cli/pcap.py:70-81 | parsing a sequence of encoded records gives back exactly those records |
| PcapReplay.EmittedIsEncodedRecords | python_cli/pcap.py:99-101 | what a run of writes appends is the encoding of the accepted packets' records, in call order |
| PcapReplay.WriteAllAppends | python_cli/pcap.py:99-101 | after a run of writes, the sink holds its earlier bytes unchanged, then what each call appended, in call order |
| PcapReplay.WriteAllAppendsRecords | python_cli/pcap.py:91-101 | after a run of writes, the sink holds its earlier bytes, then one record per accepted packet, in call order |
| PcapReplay.CaptureReplay | python_cli/pcap.py:44-101 | a capture parses as the class's file header followed by the records of the accepted packets, in call order, with captured length equal to original length equal to the payload length |

## Left out

- Choosing a file or an in-memory buffer as the sink, opening it, and `close()` (python_cli/pcap.py:44-50, 103-108). This is I/O. The sink is an append-only byte sequence.
- A write after `close()`, which behaves differently for a file and for an in-memory buffer. This is runtime I/O state, not encoding logic.
- Failures of the sink itself. A write that fails between the record header and the payload is not modelled, because the sink here cannot fail.
- The exception type and message of `struct.error`. Every range failure is the single `StructError`, and the model does not record which argument raised.
- A floating-point timestamp. The `int(...)` conversion at python_cli/pcap.py:98 matters only for floats. Timestamps here are integers.
- CRC-24 computation. The three trailing zero bytes are a placeholder, and the writer computes no CRC.
- The sniffer that produces frames, channels, RSSI values and timestamps. It is not part of this model.
- The Nordic packet counter is kept for every writer class. The plain and PHDR writers never read it, so it has no effect on them.
