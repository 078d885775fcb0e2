/**
 * The client side of one NTS-KE exchange over an established TLS connection:
 * the request the client sends (NextProto NTPv4, AEAD AES-SIV-CMAC-256, End)
 * and the reading of the server's answer into the negotiated data.
 */
module Session {
  import opened Wrappers
  import opened Wire
  import opened Records
  import opened Decoder
  import RoundTrip

  /** The ALPN protocol name the client offers and requires. */
  const Alpn: string := "ntske/1"

  /** The TLS exporter label for the NTS keys, and the contexts of the two keys. */
  const ExporterLabel: string := "EXPORTER-network-time-security"
  const S2cContext: seq<byte> := [0x00, 0x00, 0x00, 0x0f, 0x01]
  const C2sContext: seq<byte> := [0x00, 0x00, 0x00, 0x0f, 0x00]
  const KeyLength: nat := 32

  /** The records of the client request, in the order they are added. */
  function ClientRecords(): seq<Record>
  {
    [NextProto(NTPv4), Algorithm([AesSivCmac256]), End]
  }

  /** Builds and packs the client request, as the first half of `ExchangeTCP` does. */
  method ClientRequest() returns (buf: Buffer)
    ensures fresh(buf) && buf.bytes == PackAll(ClientRecords())
  {
    var msg := new ExchangeMsg();
    msg.AddRecord(NextProto(NTPv4));
    msg.AddRecord(Algorithm([AesSivCmac256]));
    msg.AddRecord(End);
    buf := msg.Pack();
  }

  /** NextProto NTPv4 is `80 01 00 02 00 00`. */
  lemma NextProtoOctets()
    ensures Encode(NextProto(NTPv4)) == [0x80, 0x01, 0x00, 0x02, 0x00, 0x00]
  {
    EncodeSplit(NextProto(NTPv4));
    HeaderOctets(RecNextproto, true, 2);
    assert BE16(0x8001) == [0x80, 0x01];
    assert BE16(2) == [0x00, 0x02];
    assert BE16(0) == [0x00, 0x00];
  }

  /** An AEAD record offering AES-SIV-CMAC-256 alone is `80 04 00 02 00 0f`. */
  lemma AeadOctets()
    ensures Encode(Algorithm([AesSivCmac256])) == [0x80, 0x04, 0x00, 0x02, 0x00, 0x0f]
  {
    EncodeSplit(Algorithm([AesSivCmac256]));
    HeaderOctets(RecAead, true, 2);
    assert BE16(0x8004) == [0x80, 0x04];
    assert BE16(2) == [0x00, 0x02];
    assert BE16s([0x0f]) == BE16(0x0f) + BE16s([]);
    assert BE16(0x0f) == [0x00, 0x0f];
  }

  /** The client request on the wire: three critical records, 16 octets. */
  lemma ClientRequestWire()
    ensures PackAll(ClientRecords()) ==
      [0x80, 0x01, 0x00, 0x02, 0x00, 0x00,
       0x80, 0x04, 0x00, 0x02, 0x00, 0x0f,
       0x80, 0x00, 0x00, 0x00]
  {
    var recs := ClientRecords();
    NextProtoOctets();
    AeadOctets();
    EndBytes();
    assert recs[1..][1..] == [End] && recs[1..][0] == recs[1];
    assert PackAll([End]) == [0x80, 0x00, 0x00, 0x00];
    assert PackAll(recs[1..]) == Encode(recs[1]) + PackAll([End]);
    assert PackAll(recs) == Encode(recs[0]) + PackAll(recs[1..]);
  }

  /**
   * Read back by the client's own decoder, the request ends successfully at
   * its End record with the AEAD algorithm it asks for, and nothing left.
   */
  lemma ClientRequestDecodes(d: Negotiated)
    ensures Decode(PackAll(ClientRecords()), d) == ReadResult(None, d.(algo := AesSivCmac256), [])
  {
    var recs := [NextProto(NTPv4), Algorithm([AesSivCmac256])];
    assert recs + [End] == ClientRecords();
    assert forall i :: 0 <= i < |recs| ==> RoundTrip.Aligned(recs[i]) && !RoundTrip.Stops(recs[i]);
    assert RoundTrip.Fold(recs, d) == d.(algo := AesSivCmac256) by {
      assert recs[1..][1..] == [];
      assert RoundTrip.Fold(recs[1..], d) == RoundTrip.Fold([], d.(algo := AesSivCmac256));
    }
    RoundTrip.PackedThenEnd(recs, d);
  }

  /**
   * `ExchangeTCP`: writes the packed request to the connection (out), then
   * reads the server's records into data. Writing cannot fail here.
   */
  method ExchangeTCP(reader: Reader, out: Buffer, data: Data) returns (err: Option<ReadError>)
    modifies reader, out, data`server, data`port, data`cookie, data`algo
    ensures out.bytes == old(out.bytes) + PackAll(ClientRecords())
    ensures var r := Decode(old(reader.pending), old(data.Value()));
      err == r.err && data.Value() == r.data && reader.pending == r.rest
  {
    var buf := ClientRequest();
    out.Write(buf.bytes);
    err := Read(reader, data);
  }
}
