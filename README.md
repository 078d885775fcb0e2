# NTS-KE record layer, modelled in Dafny

This project models the record layer of the Network Time Security Key
Establishment client in `net/ntske/ntske.go`. The model covers four things:

- how records are packed into the wire format;
- how `Read` decodes the server's stream into the negotiated data;
- how the client's request is assembled;
- how `ExchangeTCP` chains packing and reading.

A record is a 4-octet header followed by a body. The header is a big-endian
16-bit type word and a big-endian 16-bit body length. Bit 15 of the type word
is the critical bit. The record types are 0 End of Message, 1 NTS Next
Protocol, 2 Error, 3 Warning, 4 AEAD Algorithm, 5 New Cookie, 6 NTP Server and
7 NTP Port, as listed in section 4.1 of RFC 8915.

Modules:

- `Wrappers`: `Option`, where `None` stands for a nil error.
- `Wire`: octets and Go's `uint16` as bounded integers.
  - `setBit`, `hasBit` and `&^` on one bit, stated arithmetically; a shift of
    16 or more sets or tests nothing.
  - Go's truncating `uint16(n)` conversion.
  - The big-endian layout that `encoding/binary` gives a `uint16` and a
    `[]uint16`.
- `Records`: the encoding side.
  - The `RecordHdr` and `Record` variants, and `Encode`, which is what each
    variant's `pack` appends.
  - An independent reference table: type code, critical-bit policy and payload.
  - `PackAll`.
  - Imperative `Buffer` and `ExchangeMsg` classes. Their methods (`AddRecord`,
    `Pack`, `packheader`, `packsimple` and each `pack`) are proved against
    those functions.
- `Decoder`: the decoding side.
  - `Data` (the negotiated data) is a class whose fields `Read` updates in
    place.
  - `Reader` is the unread rest of the connection's stream, with the two read
    primitives `Read` uses:
    - `binary.Read`, which is `io.ReadFull`;
    - one `bufio.Reader.Read`.
  - `Decode` is the specification of `Read`, applied one record at a time with
    `ReadStep`. The `Read` method is proved to do exactly what `Decode` says:
    the error, the new data and the octets left unread.
- `RoundTrip`: what `Read` makes of what `Pack` writes.
  - `Expected` gives the meaning of a list of records at the record level.
  - `PackThenRead` proves that decoding the packed octets agrees with
    `Expected`.
  - Corollaries cover cookie accumulation, last-writer-wins, Error and Warning
    rejection, and the multi-id AEAD quirk.
- `Session`: the constants of the exchange.
  - ALPN `"ntske/1"`, the exporter label and the two key contexts, key length
    32.
  - The client request and `ExchangeTCP`.

Where the code and the protocol's prose description differ, the model follows
the code:

- Fixed-size payloads are not validated. NextProto, AEAD and Port always read
  exactly two octets, whatever the body length says.
  - An AEAD record that lists several ids is read as its first id.
  - The rest of its body is then parsed as record headers (`AlgorithmListMisreads`).
- Error and Warning records are never decoded. Senders mark them critical, and
  `Read` has no case for them, so it rejects them as unknown critical records.
- A Cookie body is taken with a single buffered read into a zeroed slice of the
  announced length.
  - A short (non-empty) read is kept, padded with zeros.
  - Only an empty read is a "buffer overrun".
- A short header read returns the raw I/O error: EOF when nothing was left,
  UnexpectedEOF otherwise. Short body reads return "buffer overrun".
- `ExchangeTCP` does not export the keys. Key export is a separate call
  (`ExportKeys`).
- A body length of 2^16 or more is truncated to 16 bits when packed.

## Model

| member | source | states |
|---|---|---|
| `Wire.HasBit` | net/ntske/ntske.go:465-468 | hasBit: whether bit pos of a uint16 is set; a position of 16 or more is never set. `Wire.Bit15` states its value for the critical bit |
| `Wire.SetBit` | net/ntske/ntske.go:460-463 | setBit, n OR (1<<pos) on a uint16; a shift of 16 or more sets nothing. `Wire.SetBitSpec` states its properties |
| `Wire.ClearBit` | net/ntske/ntske.go:397 | `n &^ (1<<pos)` on a uint16. `Wire.ClearBitSpec` and `Wire.ClearBit15` state its properties |
| `Wire.SetBitSpec` | net/ntske/ntske.go:460-463 | setBit sets bit pos when pos < 16 and leaves every other bit unchanged |
| `Wire.ClearBitSpec` | net/ntske/ntske.go:397 | `&^= 1<<pos` clears bit pos and leaves every other bit unchanged |
| `Wire.Bit15` | net/ntske/ntske.go:465-468 | hasBit(n, 15) holds exactly when n >= 0x8000 |
| `Wire.ClearBit15` | net/ntske/ntske.go:397 | clearing the critical bit leaves the type word modulo 2^15 |
| `Wire.EomTypeOctets` | net/ntske/ntske.go:397-401 | a type word that is End of Message once bit 15 is cleared has octets 00 00 or 80 00 |
| `Wire.CriticalBitRoundTrip` | net/ntske/ntske.go:390-397 | for a 15-bit type, the bit set by packheader is what hasBit reports, and clearing it gives the type back |
| `Wire.CriticalTypeWord` | net/ntske/ntske.go:106-109 | setting the critical bit of a 15-bit type adds 0x8000 |
| `Wire.Uint16` | net/ntske/ntske.go:111 | uint16(bodylen) is congruent to bodylen modulo 2^16, and equal to it when it fits |
| `Wire.BE16Inverse` | net/ntske/ntske.go:77 | reading back the big-endian octets of a uint16 gives the same uint16 |
| `Wire.FromBE16Inverse` | net/ntske/ntske.go:380 | any two octets read as a uint16 and written back are the same two octets |
| `Wire.BE16sAt` | net/ntske/ntske.go:85 | binary.Write of a []uint16 puts element i at octets 2i and 2i+1 |
| `Records.RecordHdr.Bytes` | net/ntske/ntske.go:76-79 | the four octets binary.Write gives a header, recType then bodyLen, big-endian; `Records.HdrRoundTrip` states they read back |
| `Records.UnpackHdr` | net/ntske/ntske.go:380 | the header binary.Read fills from the first four octets; `Records.HdrRoundTrip` and `Wire.FromBE16Inverse` state it inverts Bytes |
| `Records.HeaderBytes` | net/ntske/ntske.go:103-120 | packheader's four octets for type t, critical flag c and a body length; `Records.HeaderLayout` and `Records.HeaderOctets` state their layout |
| `Records.SimpleBytes` | net/ntske/ntske.go:83-101 | packsimple's octets: header sized to the encoded value, then the value; `Records.EncodeSplit` ties it to the record table |
| `Records.Encode` | net/ntske/ntske.go:164-264 | the octets each record variant's pack appends; `Records.EncodeSplit` and `Records.EncodeLayout` state them against the independent TypeCode/CriticalOnSend/Payload table |
| `Records.PackAll` | net/ntske/ntske.go:136-148 | the octets ExchangeMsg.Pack produces, each record's encoding in list order; `Records.PackAllAppend` and `Records.PackAllPrefix` state how it composes |
| `Records.HdrRoundTrip` | net/ntske/ntske.go:76-79 | the four octets RecordHdr.pack writes read back as the same header |
| `Records.HeaderLayout` | net/ntske/ntske.go:103-120 | packheader's type word has bit 15 set iff c (or already set), its other bits equal t's, and its length field is bodylen mod 2^16 |
| `Records.HeaderOctets` | net/ntske/ntske.go:104-111 | packheader writes BE16(t or t+0x8000) then BE16(uint16(bodylen)) |
| `Records.EncodeSplit` | net/ntske/ntske.go:83-101 | each pack writes exactly the header packheader would write for the record's table entry, then the payload |
| `Records.EncodeLayout` | net/ntske/ntske.go:164-264 | every record's octets: 4-octet header whose critical bit follows the table's policy, whose cleared type is the record's code and whose length is the payload length mod 2^16, then the payload |
| `Records.EndBytes` | net/ntske/ntske.go:193-195 | End packs as 80 00 00 00 |
| `Records.OversizedCookieLength` | net/ntske/ntske.go:111 | a 65536-octet cookie is written whole, with body length 0 |
| `Records.PackAllAppend` | net/ntske/ntske.go:136-148 | packing two lists one after the other gives the concatenation of their packings |
| `Records.PackAllPrefix` | net/ntske/ntske.go:139-145 | packing one more record appends that record's octets |
| `Records.Buffer.Write` | net/ntske/ntske.go:85 | writing appends the octets to the buffer |
| `Records.Buffer.ReadFrom` | net/ntske/ntske.go:95 | ReadFrom moves all of the other buffer's octets to the end of this one and drains the other |
| `Records.PackHdr` | net/ntske/ntske.go:76-79 | appends the header's four octets to buf |
| `Records.PackHeader` | net/ntske/ntske.go:103-120 | appends packheader's four octets, leaving what buf held before in place |
| `Records.PackSimple` | net/ntske/ntske.go:83-101 | appends the header sized to the encoded value, then the value |
| `Records.PackRecord` | net/ntske/ntske.go:164-264 | each variant's pack appends Encode of the record |
| `Records.ExchangeMsg.AddRecord` | net/ntske/ntske.go:151-153 | the record is appended after the existing ones |
| `Records.ExchangeMsg.Pack` | net/ntske/ntske.go:136-148 | a fresh buffer holding every record's octets in list order |
| `Decoder.Data.constructor` | net/ntske/ntske.go:39-47 | the Data struct's zero value: no keys, no server, port 0, no cookies, algo 0 |
| `Decoder.Dispatch` | net/ntske/ntske.go:399-456 | the switch on the cleared record type, on the octets after the header; `Decoder.DispatchSuffix`, `Decoder.StepFacts`, `Decoder.ShortBodyOverrun` and `RoundTrip.DispatchRecord` state its cases |
| `Decoder.Reader.ReadFull` | net/ntske/ntske.go:380 | binary.Read takes n octets, or fails with EOF (nothing left) or UnexpectedEOF (some left) after consuming the rest |
| `Decoder.Reader.ReadOnce` | net/ntske/ntske.go:421 | one buffered read: a zero-length read succeeds; otherwise EOF if nothing is left, else min(n, left) octets |
| `Decoder.ReadStep` | net/ntske/ntske.go:379-456 | a turn that goes on has consumed at least the 4-octet header; a turn that stops leaves no more than was there |
| `Decoder.Decode` | net/ntske/ntske.go:375-458 | Read never leaves more octets unread than it was given |
| `Decoder.DispatchSuffix` | net/ntske/ntske.go:399-456 | every case of the switch consumes a prefix of the body |
| `Decoder.StepSuffix` | net/ntske/ntske.go:379-456 | each turn leaves a suffix of its input unread |
| `Decoder.DecodeSuffix` | net/ntske/ntske.go:375-458 | what Read leaves unread is a suffix of the stream |
| `Decoder.HeaderThenBody` | net/ntske/ntske.go:380-399 | a header for a 15-bit type t is dispatched as type t with its critical bit and length, on the octets after it |
| `Decoder.StopSuccessFacts` | net/ntske/ntske.go:399-401 | a turn returning nil has read an End of Message header, and only that |
| `Decoder.StepFacts` | net/ntske/ntske.go:399-456 | a returning turn keeps the data; a turn that goes on only appends to the cookies |
| `Decoder.SuccessOnlyOnEom` | net/ntske/ntske.go:399-401 | Read returns nil only right after an End of Message header, whatever the stream |
| `Decoder.ShortHeaderFails` | net/ntske/ntske.go:380-383 | fewer than 4 octets: EOF if none, UnexpectedEOF otherwise, data unchanged |
| `Decoder.CookiesOnlyGrow` | net/ntske/ntske.go:426 | the cookies held before a Read are a prefix of the cookies after it |
| `Decoder.UnknownCriticalRejected` | net/ntske/ntske.go:446-448 | an unknown type with the critical bit fails right after the header, data unchanged |
| `Decoder.UnknownNonCriticalSkipped` | net/ntske/ntske.go:450-455 | an unknown non-critical record is skipped by exactly its body length, as if it were absent |
| `Decoder.ShortBodyOverrun` | net/ntske/ntske.go:403-455 | a body shorter than the case reads fails with buffer overrun, data unchanged |
| `Decoder.ShortCookiePadded` | net/ntske/ntske.go:419-426 | a short non-empty cookie body is kept zero-padded to the announced length |
| `Decoder.Read` | net/ntske/ntske.go:375-458 | Read's error, new data and unread octets are those Decode gives for the old stream and data |
| `Decoder.ReadBody` | net/ntske/ntske.go:399-456 | the switch updates data and the reader exactly as Dispatch says, and stops exactly when Dispatch stops |
| `RoundTrip.RecordHeader` | net/ntske/ntske.go:380-399 | any packed record whose payload fits a 16-bit length (any number of AEAD ids) reaches the switch with the record's code, critical bit and payload length |
| `RoundTrip.DispatchRecord` | net/ntske/ntske.go:399-456 | the switch on a packed record returns at End, fails at Error/Warning, and otherwise applies the record and continues right after it |
| `RoundTrip.StepOverRecord` | net/ntske/ntske.go:379-456 | one turn of Read over a packed record, as DispatchRecord states |
| `RoundTrip.DecodeOverRecord` | net/ntske/ntske.go:375-458 | Read over a packed record and anything: stops at End/Error/Warning, else continues on the rest with the record applied |
| `RoundTrip.PackThenRead` | net/ntske/ntske.go:375-458 | decoding packed records (lengths under 2^16, one AEAD id) gives the record-level result Expected |
| `RoundTrip.NoEndNeverSucceeds` | net/ntske/ntske.go:379-383 | packed records without End never decode to success; without Error/Warning they end in EOF |
| `RoundTrip.PackedThenEnd` | net/ntske/ntske.go:399-401 | records Read goes on after, then End, decode to success with all records applied in order and nothing left |
| `RoundTrip.CookiesAccumulate` | net/ntske/ntske.go:419-426 | N cookie records and End append exactly those N cookies, in receipt order |
| `RoundTrip.LastServerWins` | net/ntske/ntske.go:428-435 | of two Server records the second is kept |
| `RoundTrip.LastPortWins` | net/ntske/ntske.go:438-442 | of two Port records the second is kept |
| `RoundTrip.LastAlgorithmWins` | net/ntske/ntske.go:410-417 | of two AEAD records the second is kept |
| `RoundTrip.ServerPortCookie` | net/ntske/ntske.go:419-442 | Server, Port, Cookie and End decode to that server and port and one more cookie |
| `RoundTrip.ErrorAndWarningRejected` | net/ntske/ntske.go:445-448 | packed Error and Warning records make Read fail as unknown critical types 2 and 3 |
| `RoundTrip.AlgorithmListMisreads` | net/ntske/ntske.go:410-417 | the AEAD list [x, 0x8000, 0] packed alone decodes to success with algo x, though no End was packed |
| `Session.ClientRecords` | net/ntske/ntske.go:322-333 | the records the client adds: NextProto NTPv4, AEAD [AES-SIV-CMAC-256], End; `Session.ClientRequestWire` and `Session.ClientRequestDecodes` state their octets and decoding |
| `Session.ClientRequest` | net/ntske/ntske.go:322-335 | builds the three-record request and packs it |
| `Session.ClientRequestWire` | net/ntske/ntske.go:322-335 | the request is 80 01 00 02 00 00, 80 04 00 02 00 0f, 80 00 00 00 |
| `Session.ClientRequestDecodes` | net/ntske/ntske.go:322-335 | read back, the request ends successfully with algo AES-SIV-CMAC-256 and nothing left |
| `Session.ExchangeTCP` | net/ntske/ntske.go:319-351 | writes the packed request to the connection, then returns what Read returns for the incoming stream |

## Left out

- `ConnectTCP` and `NewTCPListener` are left out. They cover the TCP dial,
  host:port parsing, the TLS handshake and the ALPN check, all network and TLS
  operations. Only the ALPN string and the default ports are kept, as constants.
- `ExportKeys` is left out. It is a TLS keying-material export. Only the
  exporter label, the two contexts and the key length are kept, as constants.
  - Its order of assignments is not modelled either: the server-to-client key
    is stored before the client-to-server export can fail, so a failed call
    can leave one key set.
- I/O failures of `conn.Write`, and of `binary.Write` into an in-memory buffer,
  are not modelled. Writing is modelled as appending to a buffer that cannot
  fail.
- `Session.ExchangeTCP` models the connection as an incoming stream (`Reader`)
  and an outgoing buffer.
  - It does not model what the server writes in reaction to the request.
  - It does not model the `bufio.Reader` construction.
- `Decoder.Reader.ReadOnce` assumes that a single buffered read delivers all
  the data it has, up to n octets. A real read can return fewer octets in two
  ways, and neither is modelled:
  - at a TLS record boundary;
  - when `bufio.Reader` already holds part of the data. It then copies only
    what it holds and does not read the connection again, so a cookie body
    that crosses the 4096-octet buffer boundary is read short, even from an
    in-memory stream.
  - It also treats a zero-length read as always succeeding. It ignores a read
    error that bufio may have kept from an earlier read.
- The server address is kept as its octets, not converted to a Go `string`.
- The zap logger is left out. It takes no part in the decode.
- `RoundTrip.PackThenRead` covers only records that `Read` consumes exactly as
  `pack` wrote them:
  - Server and Cookie bodies shorter than 2^16 octets;
  - AEAD lists of exactly one id.
  Other inputs are described by `Records.OversizedCookieLength` and
  `RoundTrip.AlgorithmListMisreads`.
