/**
 * Encoder against decoder: what `Read` makes of the octets `ExchangeMsg.Pack`
 * produces. `Expected` is the record-level meaning of a list of records (the
 * accumulation rules of `Read` applied to whole records); `PackThenRead`
 * proves that decoding the packed octets agrees with it.
 */
module RoundTrip {
  import opened Wrappers
  import opened Wire
  import opened Records
  import opened Decoder

  /**
   * A record `Read` consumes exactly as `pack` wrote it: the body length fits
   * in 16 bits and an Algorithm record carries exactly one id (the decoder
   * reads a single uint16 whatever the body length says).
   */
  predicate Aligned(r: Record)
  {
    match r
    case Server(a, _) => |a| < 0x1_0000
    case Cookie(k) => |k| < 0x1_0000
    case Algorithm(ids) => |ids| == 1
    case _ => true
  }

  predicate AllAligned(recs: seq<Record>)
  {
    forall i :: 0 <= i < |recs| ==> Aligned(recs[i])
  }

  /** How a record that `Read` goes on after changes the negotiated data. */
  function Apply(r: Record, d: Negotiated): Negotiated
  {
    match r
    case Algorithm(ids) => if ids == [] then d else d.(algo := ids[0])
    case Cookie(k) => d.(cookie := d.cookie + [k])
    case Server(a, _) => d.(server := a)
    case Port(p, _) => d.(port := p)
    case _ => d
  }

  /**
   * The result of reading the records, then rest: the first End returns nil and
   * leaves what follows unread; the first Error or Warning, always sent
   * critical and unknown to `Read`, fails right after its header; every other
   * record is folded into the data.
   */
  function Expected(recs: seq<Record>, d: Negotiated, rest: seq<byte>): ReadResult
  {
    if recs == [] then Decode(rest, d)
    else match recs[0]
      case End => ReadResult(None, d, PackAll(recs[1..]) + rest)
      case Error(code) => ReadResult(Some(UnknownCritical(RecError)), d, BE16(code) + (PackAll(recs[1..]) + rest))
      case Warning(code) => ReadResult(Some(UnknownCritical(RecWarning)), d, BE16(code) + (PackAll(recs[1..]) + rest))
      case _ => Expected(recs[1..], Apply(recs[0], d), rest)
  }

  /** A packed record's header hands `Read`'s switch the record's type code, critical bit and payload length. */
  lemma RecordHeader(r: Record, d: Negotiated, tail: seq<byte>)
    requires |Payload(r)| < 0x1_0000
    ensures ReadStep(Encode(r) + tail, d) == Dispatch(TypeCode(r), CriticalOnSend(r), |Payload(r)|, Payload(r) + tail, d)
  {
    EncodeSplit(r);
    var p := Payload(r);
    assert Encode(r) + tail == HeaderBytes(TypeCode(r), CriticalOnSend(r), |p|) + (p + tail);
    HeaderThenBody(TypeCode(r), CriticalOnSend(r), |p|, p + tail, d);
  }

  /** `Read`'s switch on a packed record's header and payload, then anything. */
  lemma DispatchRecord(r: Record, d: Negotiated, tail: seq<byte>)
    requires Aligned(r)
    ensures Dispatch(TypeCode(r), CriticalOnSend(r), |Payload(r)|, Payload(r) + tail, d) ==
      match r
      case End => Stop(ReadResult(None, d, tail))
      case Error(code) => Stop(ReadResult(Some(UnknownCritical(RecError)), d, BE16(code) + tail))
      case Warning(code) => Stop(ReadResult(Some(UnknownCritical(RecWarning)), d, BE16(code) + tail))
      case _ => Continue(Apply(r, d), tail)
  {
    var body := Payload(r) + tail;
    match r
    case Algorithm(ids) =>
      assert Payload(r) == BE16(ids[0]) by {
        assert ids[1..] == [];
      }
      BE16Inverse(ids[0]);
      assert body[2..] == tail;
    case NextProto(x) =>
      assert body[2..] == tail;
    case Port(x, _) =>
      BE16Inverse(x);
      assert body[2..] == tail;
    case Cookie(k) =>
      assert body[..|k|] == k && body[|k|..] == tail;
      assert k + Zeros(0) == k;
    case Server(a, _) =>
      assert body[..|a|] == a && body[|a|..] == tail;
    case End =>
    case Error(_) =>
    case Warning(_) =>
  }

  /** One packed record, then anything: one turn of the loop of `Read`. */
  lemma StepOverRecord(r: Record, d: Negotiated, tail: seq<byte>)
    requires Aligned(r)
    ensures ReadStep(Encode(r) + tail, d) ==
      match r
      case End => Stop(ReadResult(None, d, tail))
      case Error(code) => Stop(ReadResult(Some(UnknownCritical(RecError)), d, BE16(code) + tail))
      case Warning(code) => Stop(ReadResult(Some(UnknownCritical(RecWarning)), d, BE16(code) + tail))
      case _ => Continue(Apply(r, d), tail)
  {
    RecordHeader(r, d, tail);
    DispatchRecord(r, d, tail);
  }

  /** The records on which `Read` stops. */
  predicate Stops(r: Record)
  {
    r.End? || r.Error? || r.Warning?
  }

  /** `Decode` over one packed record, then anything. */
  lemma DecodeOverRecord(r: Record, d: Negotiated, tail: seq<byte>)
    requires Aligned(r)
    ensures r.End? ==> Decode(Encode(r) + tail, d) == ReadResult(None, d, tail)
    ensures r.Error? ==> Decode(Encode(r) + tail, d) == ReadResult(Some(UnknownCritical(RecError)), d, BE16(r.code) + tail)
    ensures r.Warning? ==> Decode(Encode(r) + tail, d) == ReadResult(Some(UnknownCritical(RecWarning)), d, BE16(r.code) + tail)
    ensures !Stops(r) ==> Decode(Encode(r) + tail, d) == Decode(tail, Apply(r, d))
  {
    StepOverRecord(r, d, tail);
  }

  lemma TailAligned(recs: seq<Record>)
    requires recs != [] && AllAligned(recs)
    ensures Aligned(recs[0]) && AllAligned(recs[1..])
  {
    forall i | 0 <= i < |recs[1..]| ensures Aligned(recs[1..][i]) {
      assert recs[1..][i] == recs[i + 1];
    }
  }

  /** `Expected` on a non-empty list, one record at a time. */
  lemma ExpectedHead(recs: seq<Record>, d: Negotiated, rest: seq<byte>)
    requires recs != []
    ensures recs[0].End? ==> Expected(recs, d, rest) == ReadResult(None, d, PackAll(recs[1..]) + rest)
    ensures recs[0].Error? ==>
      Expected(recs, d, rest) == ReadResult(Some(UnknownCritical(RecError)), d, BE16(recs[0].code) + (PackAll(recs[1..]) + rest))
    ensures recs[0].Warning? ==>
      Expected(recs, d, rest) == ReadResult(Some(UnknownCritical(RecWarning)), d, BE16(recs[0].code) + (PackAll(recs[1..]) + rest))
    ensures !Stops(recs[0]) ==> Expected(recs, d, rest) == Expected(recs[1..], Apply(recs[0], d), rest)
  {
  }

  /**
   * Packing a list of records and reading the octets back gives what the
   * record-level rules predict, for records the decoder reads in step.
   */
  lemma {:induction false} PackThenRead(recs: seq<Record>, d: Negotiated, rest: seq<byte>)
    requires AllAligned(recs)
    ensures Decode(PackAll(recs) + rest, d) == Expected(recs, d, rest)
    decreases |recs|
  {
    if recs == [] {
      assert PackAll(recs) + rest == rest;
    } else {
      TailAligned(recs);
      PackAllCons(recs, rest);
      ExpectedHead(recs, d, rest);
      DecodeOverRecord(recs[0], d, PackAll(recs[1..]) + rest);
      if !Stops(recs[0]) {
        PackThenRead(recs[1..], Apply(recs[0], d), rest);
      }
    }
  }

  predicate NoEnd(recs: seq<Record>)
  {
    forall i :: 0 <= i < |recs| ==> !recs[i].End?
  }

  predicate NoErrorOrWarning(recs: seq<Record>)
  {
    forall i :: 0 <= i < |recs| ==> !recs[i].Error? && !recs[i].Warning?
  }

  /** Without an End record the record-level rules never report success; without Error or Warning they end in EOF. */
  lemma {:induction false} ExpectedWithoutEnd(recs: seq<Record>, d: Negotiated)
    requires NoEnd(recs)
    ensures Expected(recs, d, []).err.Some?
    ensures NoErrorOrWarning(recs) ==> Expected(recs, d, []).err == Some(Io(EOF))
    decreases |recs|
  {
    if recs != [] {
      assert NoEnd(recs[1..]) by {
        forall i | 0 <= i < |recs[1..]| ensures !recs[1..][i].End? {
          assert recs[1..][i] == recs[i + 1];
        }
      }
      ExpectedWithoutEnd(recs[1..], Apply(recs[0], d));
      if NoErrorOrWarning(recs) {
        assert NoErrorOrWarning(recs[1..]) by {
          forall i | 0 <= i < |recs[1..]| ensures !recs[1..][i].Error? && !recs[1..][i].Warning? {
            assert recs[1..][i] == recs[i + 1];
          }
        }
      }
    }
  }

  /**
   * A packed message with no End record never decodes successfully: the
   * stream runs out (EOF) or an Error or Warning record stops it first.
   */
  lemma NoEndNeverSucceeds(recs: seq<Record>, d: Negotiated)
    requires AllAligned(recs) && NoEnd(recs)
    ensures Decode(PackAll(recs), d).err.Some?
    ensures NoErrorOrWarning(recs) ==> Decode(PackAll(recs), d).err == Some(Io(EOF))
  {
    PackThenRead(recs, d, []);
    assert PackAll(recs) + [] == PackAll(recs);
    ExpectedWithoutEnd(recs, d);
  }

  /** The data after folding Apply over the records, first to last. */
  function Fold(recs: seq<Record>, d: Negotiated): Negotiated
  {
    if recs == [] then d else Fold(recs[1..], Apply(recs[0], d))
  }

  predicate NoStops(recs: seq<Record>)
  {
    forall i :: 0 <= i < |recs| ==> !Stops(recs[i])
  }

  lemma {:induction false} ExpectedThenEnd(recs: seq<Record>, d: Negotiated, rest: seq<byte>)
    requires NoStops(recs)
    ensures Expected(recs + [End], d, rest) == ReadResult(None, Fold(recs, d), rest)
    decreases |recs|
  {
    var all := recs + [End];
    if recs == [] {
      assert all == [End];
      assert PackAll(all[1..]) + rest == rest;
    } else {
      assert all[0] == recs[0] && all[1..] == recs[1..] + [End];
      assert !Stops(recs[0]);
      assert Expected(all, d, rest) == Expected(all[1..], Apply(recs[0], d), rest);
      assert NoStops(recs[1..]) by {
        forall i | 0 <= i < |recs[1..]| ensures !Stops(recs[1..][i]) {
          assert recs[1..][i] == recs[i + 1];
        }
      }
      ExpectedThenEnd(recs[1..], Apply(recs[0], d), rest);
    }
  }

  /**
   * Records that `Read` goes on after, then End: the decoder succeeds with the
   * data every record in turn has updated, and nothing left unread.
   */
  lemma PackedThenEnd(recs: seq<Record>, d: Negotiated)
    requires AllAligned(recs) && NoStops(recs)
    ensures Decode(PackAll(recs + [End]), d) == ReadResult(None, Fold(recs, d), [])
  {
    var all := recs + [End];
    assert AllAligned(all) by {
      forall i | 0 <= i < |all| ensures Aligned(all[i]) {
        if i < |recs| {
          assert all[i] == recs[i];
        }
      }
    }
    PackThenRead(all, d, []);
    assert PackAll(all) + [] == PackAll(all);
    ExpectedThenEnd(recs, d, []);
  }

  function CookieRecords(ks: seq<seq<byte>>): (recs: seq<Record>)
    ensures |recs| == |ks|
  {
    if ks == [] then [] else [Cookie(ks[0])] + CookieRecords(ks[1..])
  }

  lemma {:induction false} CookieRecordsAt(ks: seq<seq<byte>>, i: nat)
    requires i < |ks|
    ensures CookieRecords(ks)[i] == Cookie(ks[i])
    decreases i
  {
    if i > 0 {
      CookieRecordsAt(ks[1..], i - 1);
    }
  }

  lemma {:induction false} FoldCookies(ks: seq<seq<byte>>, d: Negotiated)
    ensures Fold(CookieRecords(ks), d) == d.(cookie := d.cookie + ks)
    decreases |ks|
  {
    var recs := CookieRecords(ks);
    if ks == [] {
      assert recs == [];
      assert d.cookie + ks == d.cookie;
    } else {
      var d' := d.(cookie := d.cookie + [ks[0]]);
      assert recs == [Cookie(ks[0])] + CookieRecords(ks[1..]);
      assert recs[0] == Cookie(ks[0]) && recs[1..] == CookieRecords(ks[1..]);
      assert Fold(recs, d) == Fold(recs[1..], d');
      FoldCookies(ks[1..], d');
      assert d'.cookie + ks[1..] == d.cookie + ks;
    }
  }

  /** N Cookie records and End decode to N more cookies, in the order received, the earlier ones kept. */
  lemma CookiesAccumulate(ks: seq<seq<byte>>, d: Negotiated)
    requires forall i :: 0 <= i < |ks| ==> |ks[i]| < 0x1_0000
    ensures Decode(PackAll(CookieRecords(ks) + [End]), d) == ReadResult(None, d.(cookie := d.cookie + ks), [])
  {
    var recs := CookieRecords(ks);
    forall i | 0 <= i < |recs| ensures Aligned(recs[i]) && !Stops(recs[i]) {
      CookieRecordsAt(ks, i);
    }
    PackedThenEnd(recs, d);
    FoldCookies(ks, d);
  }

  /** Of two Server records the second wins. */
  lemma LastServerWins(a1: seq<byte>, c1: bool, a2: seq<byte>, c2: bool, d: Negotiated)
    requires |a1| < 0x1_0000 && |a2| < 0x1_0000
    ensures Decode(PackAll([Server(a1, c1), Server(a2, c2), End]), d) == ReadResult(None, d.(server := a2), [])
  {
    var recs := [Server(a1, c1), Server(a2, c2)];
    assert recs + [End] == [Server(a1, c1), Server(a2, c2), End];
    assert Fold(recs, d) == d.(server := a2) by {
      assert recs[1..][1..] == [];
      assert Fold(recs[1..], d.(server := a1)) == Fold([], d.(server := a2));
    }
    PackedThenEnd(recs, d);
  }

  /** Of two Port records the second wins. */
  lemma LastPortWins(p1: uint16, c1: bool, p2: uint16, c2: bool, d: Negotiated)
    ensures Decode(PackAll([Port(p1, c1), Port(p2, c2), End]), d) == ReadResult(None, d.(port := p2), [])
  {
    var recs := [Port(p1, c1), Port(p2, c2)];
    assert recs + [End] == [Port(p1, c1), Port(p2, c2), End];
    assert Fold(recs, d) == d.(port := p2) by {
      assert recs[1..][1..] == [];
      assert Fold(recs[1..], d.(port := p1)) == Fold([], d.(port := p2));
    }
    PackedThenEnd(recs, d);
  }

  /** Of two AEAD algorithm records the second wins. */
  lemma LastAlgorithmWins(x1: uint16, x2: uint16, d: Negotiated)
    ensures Decode(PackAll([Algorithm([x1]), Algorithm([x2]), End]), d) == ReadResult(None, d.(algo := x2), [])
  {
    var recs := [Algorithm([x1]), Algorithm([x2])];
    assert recs + [End] == [Algorithm([x1]), Algorithm([x2]), End];
    assert Fold(recs, d) == d.(algo := x2) by {
      assert recs[1..][1..] == [];
      assert Fold(recs[1..], d.(algo := x1)) == Fold([], d.(algo := x2));
    }
    PackedThenEnd(recs, d);
  }

  /** Server, Port, Cookie and End decode to that server and port and one more cookie. */
  lemma ServerPortCookie(a: seq<byte>, ca: bool, p: uint16, cp: bool, k: seq<byte>, d: Negotiated)
    requires |a| < 0x1_0000 && |k| < 0x1_0000
    ensures Decode(PackAll([Server(a, ca), Port(p, cp), Cookie(k), End]), d) ==
      ReadResult(None, d.(server := a, port := p, cookie := d.cookie + [k]), [])
  {
    var recs := [Server(a, ca), Port(p, cp), Cookie(k)];
    assert recs + [End] == [Server(a, ca), Port(p, cp), Cookie(k), End];
    assert Fold(recs, d) == d.(server := a, port := p, cookie := d.cookie + [k]) by {
      var d1 := d.(server := a);
      var d2 := d1.(port := p);
      assert recs[1..][1..][1..] == [];
      assert Fold(recs, d) == Fold(recs[1..], d1);
      assert Fold(recs[1..], d1) == Fold(recs[1..][1..], d2);
      assert Fold(recs[1..][1..], d2) == Fold([], d2.(cookie := d.cookie + [k]));
    }
    PackedThenEnd(recs, d);
  }

  /** Error and Warning records are not decoded: sent critical, they make `Read` fail and keep the data. */
  lemma ErrorAndWarningRejected(code: uint16, rest: seq<byte>, d: Negotiated)
    ensures Decode(Encode(Error(code)) + rest, d) == ReadResult(Some(UnknownCritical(RecError)), d, BE16(code) + rest)
    ensures Decode(Encode(Warning(code)) + rest, d) == ReadResult(Some(UnknownCritical(RecWarning)), d, BE16(code) + rest)
  {
    StepOverRecord(Error(code), d, rest);
    StepOverRecord(Warning(code), d, rest);
  }

  /**
   * A list of several AEAD ids does not round-trip: `Read` takes the first id
   * and reads the rest of the body as record headers. The list [x, 0x8000,
   * 0x0000], packed on its own with no End record, decodes as success.
   */
  lemma AlgorithmListMisreads(x: uint16, d: Negotiated)
    ensures Decode(Encode(Algorithm([x, 0x8000, 0x0000])), d) == ReadResult(None, d.(algo := x), [])
  {
    var r := Algorithm([x, 0x8000, 0x0000]);
    EncodeSplit(r);
    EndBytes();
    var tail := Encode(End);
    var payload := BE16s([x, 0x8000, 0x0000]);
    assert payload == BE16(x) + tail by {
      assert BE16(0x8000) == [0x80, 0x00];
      assert BE16(0) == [0x00, 0x00];
      assert [x, 0x8000, 0x0000][1..] == [0x8000, 0x0000];
      assert [0x8000, 0x0000][1..] == [0x0000];
      assert BE16s([0x0000]) == [0x00, 0x00];
      assert BE16s([0x8000, 0x0000]) == [0x80, 0x00] + [0x00, 0x00];
      assert payload == BE16(x) + BE16s([0x8000, 0x0000]);
    }
    var d' := d.(algo := x);
    HeaderThenBody(RecAead, true, 6, payload, d);
    BE16Inverse(x);
    assert payload[2..] == tail;
    assert Encode(r) == HeaderBytes(RecAead, true, 6) + payload;
    assert ReadStep(Encode(r), d) == Continue(d', tail);
    DecodeOverRecord(End, d', []);
    assert tail + [] == tail;
  }
}
