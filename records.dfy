/**
 * The NTS-KE record encoder (RFC 8915, section 4): the record header, the
 * eight record kinds and what each one's `pack` appends to a caller-owned
 * buffer, and the exchange message that packs a list of records in order.
 *
 * Encoding is specified by pure functions (`HeaderBytes`, `Encode`,
 * `PackAll`); the methods that append into a `Buffer` in place, as the Go
 * code does, are proved against them.
 */
module Records {
  import opened Wire

  // Record type codes (section 4.1 of RFC 8915).
  const RecEom: uint16 := 0
  const RecNextproto: uint16 := 1
  const RecError: uint16 := 2
  const RecWarning: uint16 := 3
  const RecAead: uint16 := 4
  const RecCookie: uint16 := 5
  const RecServer: uint16 := 6
  const RecPort: uint16 := 7

  const AesSivCmac256: uint16 := 0x0f
  const DefaultNtskePort: uint16 := 4460
  const DefaultNtpPort: uint16 := 123
  const NTPv4: uint16 := 0

  /** The four-octet header of every record; bit 15 of recType is the critical bit. */
  datatype RecordHdr = RecordHdr(recType: uint16, bodyLen: uint16)
  {
    /** The octets `binary.Write` produces for the header: recType then bodyLen, big-endian. */
    function Bytes(): (b: seq<byte>)
      ensures |b| == 4
    {
      BE16(recType) + BE16(bodyLen)
    }
  }

  /** The header `binary.Read` fills from four octets. */
  function UnpackHdr(b: seq<byte>): RecordHdr
    requires |b| >= 4
  {
    RecordHdr(FromBE16(b[0], b[1]), FromBE16(b[2], b[3]))
  }

  /** Reading a header back from its octets gives the same header. */
  lemma HdrRoundTrip(h: RecordHdr)
    ensures UnpackHdr(h.Bytes()) == h
  {
    BE16Inverse(h.recType);
    BE16Inverse(h.bodyLen);
  }

  /** The values `packsimple` hands to `binary.Write`: a uint16, a []byte or a []uint16. */
  datatype Value = U16(u: uint16) | Octets(b: seq<byte>) | U16List(us: seq<uint16>)

  /** The octets `binary.Write` appends for a value, big-endian. */
  function BinaryWrite(v: Value): seq<byte>
  {
    match v
    case U16(u) => BE16(u)
    case Octets(b) => b
    case U16List(us) => BE16s(us)
  }

  /** The record kinds; each carries what its Go struct adds to the embedded header. */
  datatype Record =
    | NextProto(nextProto: uint16)
    | End
    | Server(addr: seq<byte>, critical: bool)
    | Port(port: uint16, critical: bool)
    | Cookie(cookie: seq<byte>)
    | Warning(code: uint16)
    | Error(code: uint16)
    | Algorithm(algo: seq<uint16>)

  /**
   * The four octets `packheader(t, c, buf, bodylen)` appends: the type with
   * bit 15 set when c holds, then `uint16(bodylen)`, both big-endian.
   */
  function HeaderBytes(t: uint16, c: bool, bodylen: nat): (h: seq<byte>)
    ensures |h| == 4
  {
    RecordHdr(if c then SetBit(t, 15) else t, Uint16(bodylen)).Bytes()
  }

  /**
   * `packheader`'s four octets read back as: bit 15 set iff c (or already set
   * in t), every other bit of t unchanged, and the body length modulo 2^16.
   */
  lemma HeaderLayout(t: uint16, c: bool, bodylen: nat)
    ensures var h := HeaderBytes(t, c, bodylen);
      HasBit(FromBE16(h[0], h[1]), 15) == (c || HasBit(t, 15)) &&
      (forall i :: i != 15 ==> HasBit(FromBE16(h[0], h[1]), i) == HasBit(t, i)) &&
      FromBE16(h[2], h[3]) == bodylen % 0x1_0000
  {
    HdrRoundTrip(RecordHdr(if c then SetBit(t, 15) else t, Uint16(bodylen)));
    if c {
      SetBitSpec(t, 15);
    }
  }

  /** The header octets of a 15-bit type code, written out. */
  lemma HeaderOctets(t: uint16, c: bool, bodylen: nat)
    requires t < 0x8000
    ensures var w := if c then t + 0x8000 else t;
      HeaderBytes(t, c, bodylen) == BE16(w) + BE16(Uint16(bodylen))
  {
    CriticalTypeWord(t);
  }

  /** What `packsimple(t, c, v, buf)` appends: a header sized to the encoded value, then the value. */
  function SimpleBytes(t: uint16, c: bool, v: Value): seq<byte>
  {
    HeaderBytes(t, c, |BinaryWrite(v)|) + BinaryWrite(v)
  }

  /** What each record's `pack` appends to the buffer. */
  function Encode(r: Record): seq<byte>
  {
    match r
    case NextProto(p) =>
      var value := BinaryWrite(U16(p));
      RecordHdr(SetBit(RecNextproto, 15), Uint16(|value|)).Bytes() + value
    case End => HeaderBytes(RecEom, true, 0)
    case Server(a, c) => SimpleBytes(RecServer, c, Octets(a))
    case Port(p, c) => SimpleBytes(RecPort, c, U16(p))
    case Cookie(k) => SimpleBytes(RecCookie, false, Octets(k))
    case Warning(code) => SimpleBytes(RecWarning, true, U16(code))
    case Error(code) => SimpleBytes(RecError, true, U16(code))
    case Algorithm(ids) => SimpleBytes(RecAead, true, U16List(ids))
  }

  // The record table of RFC 8915, section 4.1, as an independent reference for Encode.

  function TypeCode(r: Record): uint16
  {
    match r
    case End => RecEom
    case NextProto(_) => RecNextproto
    case Error(_) => RecError
    case Warning(_) => RecWarning
    case Algorithm(_) => RecAead
    case Cookie(_) => RecCookie
    case Server(_, _) => RecServer
    case Port(_, _) => RecPort
  }

  /** The critical-bit policy on send. */
  predicate CriticalOnSend(r: Record)
  {
    match r
    case Server(_, c) => c
    case Port(_, c) => c
    case Cookie(_) => false
    case _ => true
  }

  /** The body: uint16 fields as two big-endian octets, octet strings verbatim, id lists two octets per id. */
  function Payload(r: Record): seq<byte>
  {
    match r
    case End => []
    case NextProto(p) => BE16(p)
    case Port(p, _) => BE16(p)
    case Warning(code) => BE16(code)
    case Error(code) => BE16(code)
    case Server(a, _) => a
    case Cookie(k) => k
    case Algorithm(ids) => BE16s(ids)
  }

  /**
   * Every record encodes as a header followed by its payload; the header carries
   * the record's type code, its critical bit as the policy fixes it, and the
   * payload length truncated to 16 bits.
   */
  lemma EncodeLayout(r: Record)
    ensures var e := Encode(r);
      |e| == 4 + |Payload(r)| && e[4..] == Payload(r) &&
      HasBit(FromBE16(e[0], e[1]), 15) == CriticalOnSend(r) &&
      ClearBit(FromBE16(e[0], e[1]), 15) == TypeCode(r) &&
      FromBE16(e[2], e[3]) == |Payload(r)| % 0x1_0000
  {
    EncodeSplit(r);
    HeaderLayout(TypeCode(r), CriticalOnSend(r), |Payload(r)|);
    CriticalBitRoundTrip(TypeCode(r), CriticalOnSend(r));
    HdrRoundTrip(RecordHdr(if CriticalOnSend(r) then SetBit(TypeCode(r), 15) else TypeCode(r), Uint16(|Payload(r)|)));
  }

  /** Each `pack` writes the header `packheader` would write for the record's table entry, then the payload. */
  lemma EncodeSplit(r: Record)
    ensures Encode(r) == HeaderBytes(TypeCode(r), CriticalOnSend(r), |Payload(r)|) + Payload(r)
  {
  }

  /** The End record is exactly `80 00 00 00`. */
  lemma EndBytes()
    ensures Encode(End) == [0x80, 0x00, 0x00, 0x00]
  {
    HeaderOctets(RecEom, true, 0);
    assert BE16(0x8000) == [0x80, 0x00];
    assert BE16(0) == [0x00, 0x00];
  }

  /** Lengths of 2^16 and more wrap: a 65536-octet cookie announces a body length of 0. */
  lemma OversizedCookieLength(k: seq<byte>)
    requires |k| == 0x1_0000
    ensures var e := Encode(Cookie(k)); FromBE16(e[2], e[3]) == 0 && |e| == 4 + 0x1_0000
  {
    EncodeLayout(Cookie(k));
  }

  /** What `ExchangeMsg.Pack` produces: the records' encodings concatenated in list order. */
  function PackAll(recs: seq<Record>): seq<byte>
  {
    if recs == [] then [] else Encode(recs[0]) + PackAll(recs[1..])
  }

  lemma {:induction false} PackAllAppend(xs: seq<Record>, ys: seq<Record>)
    ensures PackAll(xs + ys) == PackAll(xs) + PackAll(ys)
  {
    if xs == [] {
      assert xs + ys == ys;
    } else {
      assert (xs + ys)[1..] == xs[1..] + ys;
      PackAllAppend(xs[1..], ys);
    }
  }

  /** A packed list, then anything, starts with its first record's octets. */
  lemma PackAllCons(rs: seq<Record>, rest: seq<byte>)
    requires rs != []
    ensures PackAll(rs) + rest == Encode(rs[0]) + (PackAll(rs[1..]) + rest)
  {
  }

  lemma PackAllPrefix(rs: seq<Record>, i: nat)
    requires i < |rs|
    ensures PackAll(rs[..i + 1]) == PackAll(rs[..i]) + Encode(rs[i])
  {
    assert rs[..i + 1] == rs[..i] + [rs[i]];
    PackAllAppend(rs[..i], [rs[i]]);
    assert PackAll([rs[i]]) == Encode(rs[i]) + PackAll([]);
  }

  /** Go's `bytes.Buffer`, as far as the encoder uses it. */
  class Buffer {
    var bytes: seq<byte>

    constructor ()
      ensures bytes == []
    {
      bytes := [];
    }

    method Write(p: seq<byte>)
      modifies this
      ensures bytes == old(bytes) + p
    {
      bytes := bytes + p;
    }

    /** `buf.ReadFrom(value)`: moves every octet of another buffer to the end of this one. */
    method ReadFrom(value: Buffer)
      requires value != this
      modifies this, value
      ensures bytes == old(bytes) + old(value.bytes) && value.bytes == []
    {
      bytes := bytes + value.bytes;
      value.bytes := [];
    }
  }

  /** `RecordHdr.pack`. */
  method PackHdr(h: RecordHdr, buf: Buffer)
    modifies buf
    ensures buf.bytes == old(buf.bytes) + h.Bytes()
  {
    buf.Write(BE16(h.recType));
    buf.Write(BE16(h.bodyLen));
  }

  /** `packheader`: appends exactly four octets and leaves what the buffer held untouched. */
  method PackHeader(t: uint16, c: bool, buf: Buffer, bodylen: nat)
    modifies buf
    ensures buf.bytes == old(buf.bytes) + HeaderBytes(t, c, bodylen)
    ensures |buf.bytes| == |old(buf.bytes)| + 4 && buf.bytes[..|old(buf.bytes)|] == old(buf.bytes)
  {
    var hdr := RecordHdr(t, 0);
    if c {
      hdr := hdr.(recType := SetBit(hdr.recType, 15));
    }
    hdr := hdr.(bodyLen := Uint16(bodylen));
    PackHdr(hdr, buf);
  }

  /** `packsimple`: encodes the value into a scratch buffer, writes a header sized to it, then moves it over. */
  method PackSimple(t: uint16, c: bool, v: Value, buf: Buffer)
    modifies buf
    ensures buf.bytes == old(buf.bytes) + SimpleBytes(t, c, v)
  {
    var value := new Buffer();
    value.Write(BinaryWrite(v));
    PackHeader(t, c, buf, |value.bytes|);
    buf.ReadFrom(value);
  }

  /** The `pack` method of each record kind. */
  method PackRecord(r: Record, buf: Buffer)
    modifies buf
    ensures buf.bytes == old(buf.bytes) + Encode(r)
  {
    match r
    case NextProto(p) =>
      var value := new Buffer();
      value.Write(BinaryWrite(U16(p)));
      var hdr := RecordHdr(RecNextproto, 0);
      hdr := hdr.(recType := SetBit(hdr.recType, 15));
      hdr := hdr.(bodyLen := Uint16(|value.bytes|));
      PackHdr(hdr, buf);
      buf.ReadFrom(value);
    case End => PackHeader(RecEom, true, buf, 0);
    case Server(a, c) => PackSimple(RecServer, c, Octets(a), buf);
    case Port(p, c) => PackSimple(RecPort, c, U16(p), buf);
    case Cookie(k) => PackSimple(RecCookie, false, Octets(k), buf);
    case Warning(code) => PackSimple(RecWarning, true, U16(code), buf);
    case Error(code) => PackSimple(RecError, true, U16(code), buf);
    case Algorithm(ids) => PackSimple(RecAead, true, U16List(ids), buf);
  }

  /** A series of records to be sent to the peer. */
  class ExchangeMsg {
    var records: seq<Record>

    constructor ()
      ensures records == []
    {
      records := [];
    }

    /** Appends a record at the end; earlier records stay as they were. */
    method AddRecord(r: Record)
      modifies this
      ensures records == old(records) + [r]
    {
      records := records + [r];
    }

    /** Packs every record, in list order, into a new buffer. */
    method Pack() returns (buf: Buffer)
      ensures fresh(buf) && buf.bytes == PackAll(records)
    {
      buf := new Buffer();
      var rs := records;
      for i := 0 to |rs|
        invariant buf.bytes == PackAll(rs[..i])
      {
        PackRecord(rs[i], buf);
        PackAllPrefix(rs, i);
      }
      assert rs[..|rs|] == rs;
    }
  }
}
