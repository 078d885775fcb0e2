/**
 * The NTS-KE decode loop `Read`: it reads records from a stream until an
 * End of Message record, folding them into the negotiated `Data`, and applies
 * the critical-bit rule of RFC 8915, section 4, to record types it does not know.
 *
 * The stream is an in-memory sequence of octets (`Reader.pending` is what is
 * still unread). `Decode` specifies the whole loop as a function of the unread
 * octets and the data so far; the `Read` method is proved against it.
 */
module Decoder {
  import opened Wrappers
  import opened Wire
  import opened Records

  /** The two ways `io.ReadFull` reports a short read: nothing read, or part of it. */
  datatype IoError = EOF | UnexpectedEOF

  /** The errors `Read` returns. */
  datatype ReadError =
    | Io(cause: IoError)                // the record header could not be read in full
    | BufferOverrun                     // "buffer overrun": a record body could not be read
    | UnknownCritical(recType: uint16)  // "unknown record type %v with critical bit set"

  /** The fields of `Data` that decoding fills in. */
  datatype Negotiated = Negotiated(server: seq<byte>, port: uint16, cookie: seq<seq<byte>>, algo: uint16)

  /** Data negotiated by the key exchange. */
  class Data {
    var c2sKey: seq<byte>
    var s2cKey: seq<byte>
    var server: seq<byte>
    var port: uint16
    var cookie: seq<seq<byte>>
    var algo: uint16

    /** The zero value, `var data Data`. */
    constructor ()
      ensures Value() == Negotiated([], 0, [], 0) && c2sKey == [] && s2cKey == []
    {
      c2sKey, s2cKey := [], [];
      server, port, cookie, algo := [], 0, [], 0;
    }

    function Value(): Negotiated
      reads this
    {
      Negotiated(server, port, cookie, algo)
    }
  }

  /**
   * A buffered reader over an in-memory stream. It is assumed to hand out every
   * octet still pending that a read asks for: a stream never returns fewer octets
   * than it holds. A real buffered read can return fewer, at a TLS record
   * boundary or when the read buffer holds only part of what was asked for (a
   * buffered read copies what is buffered and does not read the connection again).
   */
  class Reader {
    var pending: seq<byte>

    constructor (s: seq<byte>)
      ensures pending == s
    {
      pending := s;
    }

    /**
     * `io.ReadFull`, as `binary.Read` uses it: n octets, or an error after
     * reading whatever was left (EOF when that was nothing).
     */
    method ReadFull(n: nat) returns (p: seq<byte>, err: Option<IoError>)
      modifies this
      ensures n <= |old(pending)| ==>
        err == None && p == old(pending)[..n] && pending == old(pending)[n..]
      ensures n > |old(pending)| ==>
        err == Some(if old(pending) == [] then EOF else UnexpectedEOF) && p == old(pending) && pending == []
    {
      if n <= |pending| {
        p, pending, err := pending[..n], pending[n..], None;
      } else {
        err := Some(if pending == [] then EOF else UnexpectedEOF);
        p, pending := pending, [];
      }
    }

    /**
     * One call of `bufio.Reader.Read` into an n-octet slice: an empty slice reads
     * nothing and succeeds; otherwise it returns EOF when nothing is pending and
     * else the first min(n, pending) octets.
     */
    method ReadOnce(n: nat) returns (p: seq<byte>, err: Option<IoError>)
      modifies this
      ensures n == 0 ==> err == None && p == [] && pending == old(pending)
      ensures n > 0 && old(pending) == [] ==> err == Some(EOF) && p == [] && pending == []
      ensures n > 0 && old(pending) != [] ==>
        err == None && p == old(pending)[..Min(n, |old(pending)|)] && pending == old(pending)[Min(n, |old(pending)|)..]
    {
      if n == 0 {
        p, err := [], None;
      } else if pending == [] {
        p, err := [], Some(EOF);
      } else {
        var k := Min(n, |pending|);
        p, pending, err := pending[..k], pending[k..], None;
      }
    }
  }

  /** How a call of `Read` ends: the error it returns (None for nil), the data, and the octets left unread. */
  datatype ReadResult = ReadResult(err: Option<ReadError>, data: Negotiated, rest: seq<byte>)

  /** One turn of the loop: go on with new data and the octets after the record, or return. */
  datatype Step = Continue(data: Negotiated, rest: seq<byte>) | Stop(result: ReadResult)

  /** t is a suffix of s: what a reader has left after consuming a prefix of s. */
  predicate IsSuffix(t: seq<byte>, s: seq<byte>)
  {
    |t| <= |s| && t == s[|s| - |t|..]
  }

  function Overrun(d: Negotiated): ReadResult
  {
    ReadResult(Some(BufferOverrun), d, [])
  }

  /** One iteration of `Read` on the unread octets s. */
  function ReadStep(s: seq<byte>, d: Negotiated): (st: Step)
    ensures st.Continue? ==> |st.rest| + 4 <= |s|
    ensures st.Stop? ==> |st.result.rest| <= |s|
  {
    if |s| < 4 then Stop(ReadResult(Some(Io(if s == [] then EOF else UnexpectedEOF)), d, []))
    else
      var msg := UnpackHdr(s[..4]);
      DispatchSuffix(ClearBit(msg.recType, 15), HasBit(msg.recType, 15), msg.bodyLen, s[4..], d);
      Dispatch(ClearBit(msg.recType, 15), HasBit(msg.recType, 15), msg.bodyLen, s[4..], d)
  }

  /**
   * The switch on the cleared record type t, with the critical bit and the
   * header's body length n, over the octets after the header.
   */
  function Dispatch(t: uint16, critical: bool, n: uint16, body: seq<byte>, d: Negotiated): Step
  {
    if t == RecEom then Stop(ReadResult(None, d, body))
    else if t == RecNextproto then
      if |body| < 2 then Stop(Overrun(d)) else Continue(d, body[2..])
    else if t == RecAead then
      if |body| < 2 then Stop(Overrun(d)) else Continue(d.(algo := FromBE16(body[0], body[1])), body[2..])
    else if t == RecCookie then
      if n > 0 && body == [] then Stop(Overrun(d))
      else
        var k := Min(n, |body|);
        Continue(d.(cookie := d.cookie + [body[..k] + Zeros(n - k)]), body[k..])
    else if t == RecServer then
      if |body| < n then Stop(Overrun(d)) else Continue(d.(server := body[..n]), body[n..])
    else if t == RecPort then
      if |body| < 2 then Stop(Overrun(d)) else Continue(d.(port := FromBE16(body[0], body[1])), body[2..])
    else if critical then Stop(ReadResult(Some(UnknownCritical(t)), d, body))
    else if |body| < n then Stop(Overrun(d))
    else Continue(d, body[n..])
  }

  /** The whole of `Read`: run ReadStep until it stops. */
  function Decode(s: seq<byte>, d: Negotiated): (r: ReadResult)
    ensures |r.rest| <= |s|
    decreases |s|
  {
    match ReadStep(s, d)
    case Continue(d', rest) => Decode(rest, d')
    case Stop(result) => result
  }

  /** One turn consumes a prefix of the unread octets: what it leaves is a suffix of them. */
  lemma StepSuffix(s: seq<byte>, d: Negotiated)
    ensures var st := ReadStep(s, d);
      (st.Continue? ==> IsSuffix(st.rest, s)) && (st.Stop? ==> IsSuffix(st.result.rest, s))
  {
    if |s| >= 4 {
      var msg := UnpackHdr(s[..4]);
      var st := Dispatch(ClearBit(msg.recType, 15), HasBit(msg.recType, 15), msg.bodyLen, s[4..], d);
      DispatchSuffix(ClearBit(msg.recType, 15), HasBit(msg.recType, 15), msg.bodyLen, s[4..], d);
      SuffixTrans(if st.Continue? then st.rest else st.result.rest, s[4..], s);
    }
  }

  lemma DispatchSuffix(t: uint16, critical: bool, n: uint16, body: seq<byte>, d: Negotiated)
    ensures var st := Dispatch(t, critical, n, body, d);
      (st.Continue? ==> IsSuffix(st.rest, body)) && (st.Stop? ==> IsSuffix(st.result.rest, body))
  {
    assert IsSuffix([], body) by {
      assert body[|body|..] == [];
    }
    assert IsSuffix(body, body) by {
      assert body[0..] == body;
    }
    if t == RecNextproto || t == RecAead || t == RecPort {
      if |body| >= 2 {
        DropSuffix(body, 2);
      }
    } else if t == RecCookie {
      DropSuffix(body, Min(n, |body|));
    } else if t != RecEom && (t == RecServer || !critical) {
      if |body| >= n {
        DropSuffix(body, n);
      }
    }
  }

  lemma DropSuffix(s: seq<byte>, k: nat)
    requires k <= |s|
    ensures IsSuffix(s[k..], s)
  {
  }

  /** `Read` only ever consumes: the octets it leaves unread are a suffix of the stream. */
  lemma {:induction false} DecodeSuffix(s: seq<byte>, d: Negotiated)
    ensures IsSuffix(Decode(s, d).rest, s)
    decreases |s|
  {
    StepSuffix(s, d);
    var st := ReadStep(s, d);
    if st.Continue? {
      DecodeSuffix(st.rest, st.data);
      SuffixTrans(Decode(st.rest, st.data).rest, st.rest, s);
    }
  }

  lemma SuffixTrans(a: seq<byte>, b: seq<byte>, c: seq<byte>)
    requires IsSuffix(a, b) && IsSuffix(b, c)
    ensures IsSuffix(a, c)
  {
    assert c[|c| - |b|..][|b| - |a|..] == c[|c| - |a|..];
  }

  /** The record types the switch of `Read` has a case for. */
  predicate Known(t: uint16)
  {
    t == RecEom || t == RecNextproto || t == RecAead || t == RecCookie || t == RecServer || t == RecPort
  }

  /** A header written by `packheader` for a 15-bit type t is dispatched on t, its critical bit and its length. */
  lemma HeaderThenBody(t: uint16, c: bool, n: uint16, body: seq<byte>, d: Negotiated)
    requires t < 0x8000
    ensures ReadStep(HeaderBytes(t, c, n) + body, d) == Dispatch(t, c, n, body, d)
  {
    var s := HeaderBytes(t, c, n) + body;
    var w := if c then SetBit(t, 15) else t;
    assert s[..4] == RecordHdr(w, Uint16(n)).Bytes();
    assert s[4..] == body;
    HdrRoundTrip(RecordHdr(w, Uint16(n)));
    CriticalBitRoundTrip(t, c);
  }

  /** A turn that returns nil has just read an End of Message header and nothing more. */
  lemma StopSuccessFacts(s: seq<byte>, d: Negotiated)
    ensures var st := ReadStep(s, d);
      st.Stop? && st.result.err == None ==> EomHeaderAt(s, 4) && st.result.rest == s[4..]
  {
    if |s| >= 4 {
      var msg := UnpackHdr(s[..4]);
      if ClearBit(msg.recType, 15) == RecEom {
        EomTypeOctets(s[0], s[1]);
      }
    }
  }

  /** A turn that returns does not touch the data; a turn that goes on only appends cookies. */
  lemma StepFacts(s: seq<byte>, d: Negotiated)
    ensures var st := ReadStep(s, d);
      (st.Stop? ==> st.result.data == d) &&
      (st.Continue? ==> |d.cookie| <= |st.data.cookie| && st.data.cookie[..|d.cookie|] == d.cookie)
  {
    if |s| >= 4 {
      var msg := UnpackHdr(s[..4]);
      var st := Dispatch(ClearBit(msg.recType, 15), HasBit(msg.recType, 15), msg.bodyLen, s[4..], d);
      if st.Continue? {
        assert st.data.cookie[..|d.cookie|] == d.cookie;
      }
    }
  }

  /**
   * The four octets before position k of s are a header of type End of
   * Message, critical or not: its type octets read 00 00 or 80 00.
   */
  predicate EomHeaderAt(s: seq<byte>, k: nat)
  {
    4 <= k <= |s| && (s[k - 4] == 0x00 || s[k - 4] == 0x80) && s[k - 3] == 0x00
  }

  /** An End of Message header found in a suffix of s is one in s, at the matching position. */
  lemma EomHeaderInSuffix(s: seq<byte>, rest: seq<byte>, left: seq<byte>)
    requires IsSuffix(rest, s) && |left| <= |rest| && EomHeaderAt(rest, |rest| - |left|)
    ensures EomHeaderAt(s, |s| - |left|)
  {
    var off := |s| - |rest|;
    var j := |rest| - |left|;
    assert s[j + off - 4] == rest[j - 4];
    assert s[j + off - 3] == rest[j - 3];
  }

  /** A turn that goes on leaves the rest of the result to the turns after it. */
  lemma ContinueStep(s: seq<byte>, d: Negotiated)
    requires ReadStep(s, d).Continue?
    ensures var st := ReadStep(s, d);
      Decode(s, d) == Decode(st.rest, st.data) && |st.rest| < |s|
  {
  }

  /** `Read` succeeds only right after a record whose type, with the critical bit cleared, is End of Message. */
  lemma {:induction false} SuccessOnlyOnEom(s: seq<byte>, d: Negotiated)
    ensures var r := Decode(s, d); r.err == None ==> EomHeaderAt(s, |s| - |r.rest|)
    decreases |s|
  {
    if ReadStep(s, d).Continue? {
      var rest, d' := ReadStep(s, d).rest, ReadStep(s, d).data;
      ContinueStep(s, d);
      StepSuffix(s, d);
      SuccessOnlyOnEom(rest, d');
      var r := Decode(rest, d');
      if r.err == None {
        EomHeaderInSuffix(s, rest, r.rest);
      }
    } else {
      var r := ReadStep(s, d).result;
      assert Decode(s, d) == r;
      StopSuccessFacts(s, d);
      if r.err == None {
        assert |s| - |r.rest| == 4;
      }
    }
  }

  /** A stream that ends inside (or before) a record header makes `Read` fail. */
  lemma ShortHeaderFails(s: seq<byte>, d: Negotiated)
    requires |s| < 4
    ensures Decode(s, d) == ReadResult(Some(Io(if s == [] then EOF else UnexpectedEOF)), d, [])
  {
  }

  /** Cookies are only ever appended: whatever `Read` returns, the cookies held before come first, unchanged. */
  lemma {:induction false} CookiesOnlyGrow(s: seq<byte>, d: Negotiated)
    ensures var c := Decode(s, d).data.cookie; |d.cookie| <= |c| && c[..|d.cookie|] == d.cookie
    decreases |s|
  {
    StepFacts(s, d);
    match ReadStep(s, d)
    case Continue(d', rest) =>
      CookiesOnlyGrow(rest, d');
      var c := Decode(s, d).data.cookie;
      assert d'.cookie[..|d.cookie|] == d.cookie;
      assert c[..|d'.cookie|][..|d.cookie|] == c[..|d.cookie|];
    case Stop(result) =>
  }

  /**
   * An unknown record type with the critical bit set fails at once, whatever its
   * length: nothing after the header is read and the data is unchanged.
   */
  lemma UnknownCriticalRejected(t: uint16, n: uint16, body: seq<byte>, d: Negotiated)
    requires t < 0x8000 && !Known(t)
    ensures Decode(HeaderBytes(t, true, n) + body, d) == ReadResult(Some(UnknownCritical(t)), d, body)
  {
    HeaderThenBody(t, true, n, body, d);
  }

  /** An unknown record type without the critical bit is skipped by exactly its body length. */
  lemma UnknownNonCriticalSkipped(t: uint16, payload: seq<byte>, rest: seq<byte>, d: Negotiated)
    requires t < 0x8000 && !Known(t) && |payload| < 0x1_0000
    ensures Decode(HeaderBytes(t, false, |payload|) + payload + rest, d) == Decode(rest, d)
  {
    HeaderThenBody(t, false, |payload|, payload + rest, d);
    assert HeaderBytes(t, false, |payload|) + payload + rest == HeaderBytes(t, false, |payload|) + (payload + rest);
    assert (payload + rest)[|payload|..] == rest;
  }

  /** The body a record of type t needs, under `Read`'s reads, is missing. */
  predicate ShortBody(t: uint16, c: bool, n: uint16, body: seq<byte>)
  {
    ((t == RecNextproto || t == RecAead || t == RecPort) && |body| < 2) ||
    (t == RecServer && |body| < n) ||
    (t == RecCookie && n > 0 && body == []) ||
    (!Known(t) && !c && |body| < n)
  }

  /** A record whose body is cut short makes `Read` fail with "buffer overrun", keeping the data. */
  lemma ShortBodyOverrun(t: uint16, c: bool, n: uint16, body: seq<byte>, d: Negotiated)
    requires t < 0x8000 && ShortBody(t, c, n, body)
    ensures Decode(HeaderBytes(t, c, n) + body, d) == ReadResult(Some(BufferOverrun), d, [])
  {
    HeaderThenBody(t, c, n, body, d);
  }

  /**
   * A Cookie record whose body is cut short, but not empty, is kept padded with
   * zeros to the announced length; the stream then ends, so `Read` fails with EOF.
   */
  lemma ShortCookiePadded(c: bool, n: uint16, body: seq<byte>, d: Negotiated)
    requires 0 < |body| < n
    ensures Decode(HeaderBytes(RecCookie, c, n) + body, d) ==
      ReadResult(Some(Io(EOF)), d.(cookie := d.cookie + [body + Zeros(n - |body|)]), [])
  {
    var s := HeaderBytes(RecCookie, c, n) + body;
    var d' := d.(cookie := d.cookie + [body + Zeros(n - |body|)]);
    HeaderThenBody(RecCookie, c, n, body, d);
    assert Min(n, |body|) == |body|;
    assert body[..|body|] == body && body[|body|..] == [];
    assert Dispatch(RecCookie, c, n, body, d) == Continue(d', []);
    assert Decode(s, d) == Decode([], d');
    ShortHeaderFails([], d');
  }

  /**
   * `Read`: reads records until End of Message and folds them into data. Only
   * server, port, cookie and algo may change; the keys are left alone.
   */
  method Read(reader: Reader, data: Data) returns (err: Option<ReadError>)
    modifies reader, data`server, data`port, data`cookie, data`algo
    ensures var r := Decode(old(reader.pending), old(data.Value()));
      err == r.err && data.Value() == r.data && reader.pending == r.rest
  {
    while true
      invariant Decode(reader.pending, data.Value()) == Decode(old(reader.pending), old(data.Value()))
      decreases |reader.pending|
    {
      ghost var s, d := reader.pending, data.Value();
      var hdr, hdrErr := reader.ReadFull(4);
      if hdrErr.Some? {
        return Some(Io(hdrErr.value));
      }
      var msg := UnpackHdr(hdr);
      // Note the critical bit, then clear it before dispatching on the type.
      var critical := HasBit(msg.recType, 15);
      msg := msg.(recType := ClearBit(msg.recType, 15));
      assert s[..4] == hdr && reader.pending == s[4..];
      ghost var body := reader.pending;
      assert ReadStep(s, d) == Dispatch(msg.recType, critical, msg.bodyLen, body, d);

      var stop, e := ReadBody(reader, data, msg.recType, critical, msg.bodyLen);
      if stop {
        return e;
      }
    }
  }

  /**
   * The `switch` of `Read` on the cleared record type t: reads the record's
   * body and updates data, or returns (stop) with the error `Read` returns.
   */
  method ReadBody(reader: Reader, data: Data, t: uint16, critical: bool, n: uint16) returns (stop: bool, err: Option<ReadError>)
    modifies reader, data`server, data`port, data`cookie, data`algo
    ensures var st := Dispatch(t, critical, n, old(reader.pending), old(data.Value()));
      match st
      case Continue(d', rest) => !stop && data.Value() == d' && reader.pending == rest
      case Stop(r) => stop && err == r.err && data.Value() == r.data && reader.pending == r.rest
  {
    stop, err := false, None;
    if t == RecEom {
      return true, None;
    } else if t == RecNextproto {
      var nextProto, e := reader.ReadFull(2);
      if e.Some? {
        return true, Some(BufferOverrun);
      }
    } else if t == RecAead {
      var aead, e := reader.ReadFull(2);
      if e.Some? {
        return true, Some(BufferOverrun);
      }
      data.algo := FromBE16(aead[0], aead[1]);
    } else if t == RecCookie {
      var got, e := reader.ReadOnce(n);
      if e.Some? {
        return true, Some(BufferOverrun);
      }
      var cookie := got + Zeros(n - |got|);
      data.cookie := data.cookie + [cookie];
    } else if t == RecServer {
      var address, e := reader.ReadFull(n);
      if e.Some? {
        return true, Some(BufferOverrun);
      }
      data.server := address;
    } else if t == RecPort {
      var port, e := reader.ReadFull(2);
      if e.Some? {
        return true, Some(BufferOverrun);
      }
      data.port := FromBE16(port[0], port[1]);
    } else {
      if critical {
        return true, Some(UnknownCritical(t));
      }
      // Swallow the unknown record.
      var unknownMsg, e := reader.ReadFull(n);
      if e.Some? {
        return true, Some(BufferOverrun);
      }
    }
  }
}
