/** The record layer: versioned, strictly numbered envelopes around payloads. */
module Records {
  import opened Types
  import opened Messages
  import opened Wire
  import opened Validation
  import opened Codec

  const HEADER_SIZE: nat := 24
  const MAGIC0: byte := 0x56
  const MAGIC1: byte := 0x44
  const MAGIC2: byte := 0x50
  const MAGIC3: byte := 0x31

  function PayloadLimit(t: nat, limits: Limits): nat {
    if UsesPixelPayload(t) then limits.maxPixelPayload else limits.maxControlPayload
  }

  /** One record: magic, version, type, two zero words, length, sequence, payload. */
  function Record(m: Message, version: nat, sequence: nat, tail: seq<byte>): seq<byte> {
    [MAGIC0, MAGIC1, MAGIC2, MAGIC3]
      + Put16(version, Put16(TypeOf(m), Put16(0, Put16(0, Put32(|Marshal(m)|, Put64(sequence, Marshal(m) + tail))))))
  }

  // ----- sending

  /** Why a message would be refused before it gets a sequence number. */
  function EncodeError(m: Message, version: nat, limits: Limits): Option<Error> {
    if MessageError(m, limits).Some? then MessageError(m, limits)
    else if RequiresVersion2(TypeOf(m)) && version < VERSION2 then Some(BadVersion)
    else None
  }

  class Encoder {
    const limits: Limits
    var written: seq<byte>
    var sequence: nat
    var version: nat

    constructor (l: Limits)
      ensures limits == Bounded(l) && written == [] && sequence == 0 && version == VERSION1
    {
      limits, written, sequence, version := Bounded(l), [], 0, VERSION1;
    }

    method PinVersion(v: nat)
      modifies this`version
      ensures version == v
    {
      version := v;
    }

    /** A refused message writes nothing and uses up no sequence number. */
    method Encode(m: Message) returns (err: Option<Error>)
      requires limits == Bounded(limits)
      modifies this`written, this`sequence
      ensures err == EncodeError(m, version, limits)
      ensures err.Some? ==> written == old(written) && sequence == old(sequence)
      ensures err == None ==> sequence == old(sequence) + 1
                              && written == old(written) + Record(m, version, sequence, [])
    {
      hide Put16, Put32, Put64, Marshal, MessageError;
      err := ValidateMessage(m, limits);
      if err.Some? {
        return;
      }
      if RequiresVersion2(TypeOf(m)) && version < VERSION2 {
        return Some(BadVersion);
      }
      var payload := Marshal(m);
      AcceptedFits(m, limits);
      if |payload| > PayloadLimit(TypeOf(m), limits) {
        return Some(MessageTooLarge);
      }
      sequence := sequence + 1;
      var header := [MAGIC0, MAGIC1, MAGIC2, MAGIC3]
        + Put16(version, Put16(TypeOf(m), Put16(0, Put16(0, Put32(|payload|, Put64(sequence, payload))))));
      assert payload + [] == payload;
      written := written + header;
      return None;
    }
  }

  /** The exact re-check after marshaling never fires. */
  lemma AcceptedFits(m: Message, limits: Limits)
    requires limits == Bounded(limits) && MessageError(m, limits) == None
    ensures |Marshal(m)| <= PayloadLimit(TypeOf(m), limits)
  {
    hide Put16, Put32, Put64, PutHeader, ListError;
    match m
    case WholeFrame(f) => ArithmeticSizeIsExact(f, FramePart(f.header, 0, 0, []));
    case Part(p) => ArithmeticSizeIsExact(Frame(p.header, []), p);
    case _ =>
  }

  // ----- receiving

  /** The record sequence and the inclusive window of accepted versions. */
  datatype Receiver = Receiver(sequence: nat, minVersion: nat, maxVersion: nat)

  function Pin(d: Receiver, v: nat): Receiver { d.(minVersion := v, maxVersion := v) }

  /** The header's fields; None when the stream is too short for one. */
  datatype Envelope =
    Envelope(magic: seq<byte>, version: nat, kind: nat, flags: nat, reserved: nat, length: nat, sequence: nat)

  function GetEnvelope(p: seq<byte>): (r: Parsed<Envelope>)
    ensures r.Got? ==> |r.rest| + HEADER_SIZE == |p|
  {
    var (magic, p1) :- GetBytes(p, 4);
    var (version, p2) :- Get16(p1);
    var (kind, p3) :- Get16(p2);
    var (flags, p4) :- Get16(p3);
    var (reserved, p5) :- Get16(p4);
    var (length, p6) :- Get32(p5);
    var (sequence, p7) :- Get64(p6);
    Got(Envelope(magic, version, kind, flags, reserved, length, sequence), p7)
  }

  /** The checks on a header, in order. */
  function EnvelopeError(e: Envelope, d: Receiver, limits: Limits): Option<Error> {
    if e.magic != [MAGIC0, MAGIC1, MAGIC2, MAGIC3] then Some(Malformed)
    else if e.version < d.minVersion || e.version > d.maxVersion then Some(BadVersion)
    else if e.kind < 1 || e.kind > 16 then Some(UnknownType)
    else if RequiresVersion2(e.kind) && e.version < VERSION2 then Some(BadVersion)
    else if e.flags != 0 || e.reserved != 0 then Some(Malformed)
    else if e.length > PayloadLimit(e.kind, limits) then Some(MessageTooLarge)
    else if e.sequence != d.sequence + 1 then Some(BadSequence)
    else None
  }

  /** One record off the stream: the message and the bytes after it. */
  function DecodeRecord(d: Receiver, stream: seq<byte>, limits: Limits): (r: Result<(Message, seq<byte>), Error>)
    ensures r.Ok? ==> |r.value.1| < |stream|
  {
    match GetEnvelope(stream)
    case Fail => Err(ShortRead)
    case Got(e, rest) =>
      if EnvelopeError(e, d, limits).Some? then Err(EnvelopeError(e, d, limits).value)
      else if e.length > |rest| then Err(ShortRead)
      else match Unmarshal(e.kind, rest[..e.length], limits)
           case Err(error) => Err(error)
           case Ok(m) => Ok((m, rest[e.length..]))
  }

  function Advance(d: Receiver): Receiver { d.(sequence := d.sequence + 1) }

  class Decoder {
    const limits: Limits
    var unread: seq<byte>
    var sequence: nat
    var minVersion: nat
    var maxVersion: nat

    function Model(): Receiver
      reads this
    {
      Receiver(sequence, minVersion, maxVersion)
    }

    constructor (l: Limits, stream: seq<byte>)
      ensures limits == Bounded(l) && unread == stream && Model() == Receiver(0, VERSION1, VERSION1)
    {
      limits, unread := Bounded(l), stream;
      sequence, minVersion, maxVersion := 0, VERSION1, VERSION1;
    }

    method SetVersionWindow(min: nat, max: nat)
      modifies this`minVersion, this`maxVersion
      ensures Model() == old(Model()).(minVersion := min, maxVersion := max)
    {
      minVersion, maxVersion := min, max;
    }

    method PinVersion(v: nat)
      modifies this`minVersion, this`maxVersion
      ensures Model() == Pin(old(Model()), v)
    {
      minVersion, maxVersion := v, v;
    }

    /** Only an accepted record moves the sequence. */
    method Decode() returns (r: Result<Message, Error>)
      modifies this`unread, this`sequence
      ensures match DecodeRecord(old(Model()), old(unread), limits)
              case Err(e) => r == Err(e) && Model() == old(Model())
              case Ok((m, rest)) => r == Ok(m) && unread == rest && Model() == Advance(old(Model()))
    {
      hide Unmarshal, GetEnvelope;
      var e := GetEnvelope(unread);
      if e.Fail? {
        return Err(ShortRead);
      }
      unread := e.rest;
      var bad := EnvelopeError(e.value, Model(), limits);
      if bad.Some? {
        return Err(bad.value);
      }
      if e.value.length > |unread| {
        return Err(ShortRead);
      }
      var payload := unread[..e.value.length];
      unread := unread[e.value.length..];
      r := Unmarshal(e.value.kind, payload, limits);
      if r.Ok? {
        sequence := e.value.sequence;
      }
    }
  }

  // ----- one record

  /** What the encoder put on the wire as record number `sequence`. */
  ghost predicate Encodable(m: Message, version: nat, sequence: nat, limits: Limits) {
    && limits == Bounded(limits) && Typed(m) && EncodeError(m, version, limits) == None
    && version <= U16_MAX && sequence <= U64_MAX
  }

  lemma EnvelopeOfRecord(m: Message, version: nat, sequence: nat, tail: seq<byte>)
    requires version <= U16_MAX && sequence <= U64_MAX && |Marshal(m)| <= U32_MAX
    ensures GetEnvelope(Record(m, version, sequence, tail))
            == Got(Envelope([MAGIC0, MAGIC1, MAGIC2, MAGIC3], version, TypeOf(m), 0, 0, |Marshal(m)|, sequence),
                   Marshal(m) + tail)
  {
    hide Put16, Get16, Put32, Get32, Put64, Get64, Marshal;
    var q6 := Put64(sequence, Marshal(m) + tail);
    var q5 := Put32(|Marshal(m)|, q6);
    var q4 := Put16(0, q5);
    var q3 := Put16(0, q4);
    var q2 := Put16(TypeOf(m), q3);
    var q1 := Put16(version, q2);
    Field64(sequence, Marshal(m) + tail);
    Field32(|Marshal(m)|, q6);
    Field16(0, q5);
    Field16(0, q4);
    Field16(TypeOf(m), q3);
    Field16(version, q2);
    var magic := [MAGIC0, MAGIC1, MAGIC2, MAGIC3];
    assert (magic + q1)[..4] == magic && (magic + q1)[4..] == q1;
  }

  lemma PayloadIsShort(m: Message, limits: Limits)
    requires limits == Bounded(limits) && MessageError(m, limits) == None
    ensures |Marshal(m)| <= PayloadLimit(TypeOf(m), limits) && |Marshal(m)| <= U32_MAX
  {
    hide Marshal, MessageError;
    AcceptedFits(m, limits);
  }

  /** A genuine record is read back whole exactly when its version is in the window and it is
      the next in sequence; otherwise the version or the sequence check stops it. */
  lemma DecodeOfRecord(d: Receiver, m: Message, version: nat, sequence: nat, tail: seq<byte>, limits: Limits)
    requires Encodable(m, version, sequence, limits)
    ensures DecodeRecord(d, Record(m, version, sequence, tail), limits)
            == if version < d.minVersion || version > d.maxVersion then Err(BadVersion)
               else if sequence == d.sequence + 1 then Ok((m, tail)) else Err(BadSequence)
  {
    hide Marshal, MessageError, Unmarshal, Record, GetEnvelope, Typed;
    PayloadIsShort(m, limits);
    EnvelopeOfRecord(m, version, sequence, tail);
    UnmarshalOfMarshal(m, limits);
    var rest := Marshal(m) + tail;
    assert rest[..|Marshal(m)|] == Marshal(m) && rest[|Marshal(m)|..] == tail;
  }

  /** Whatever is accepted off a stream was, byte for byte, a record of that message with
      the next number and a version the window allows. */
  lemma AcceptedIsARecord(d: Receiver, stream: seq<byte>, limits: Limits) returns (version: nat)
    requires DecodeRecord(d, stream, limits).Ok?
    ensures var (m, rest) := DecodeRecord(d, stream, limits).value;
            && d.minVersion <= version <= d.maxVersion
            && EncodeError(m, version, limits) == None
            && stream == Record(m, version, d.sequence + 1, rest)
  {
    hide Put16, Get16, Put32, Get32, Put64, Get64, Marshal, Unmarshal, MessageError;
    var (m, rest) := DecodeRecord(d, stream, limits).value;
    var e, body := GetEnvelope(stream).value, GetEnvelope(stream).rest;
    MarshalOfUnmarshal(e.kind, body[..e.length], limits);
    assert body == Marshal(m) + rest;
    EnvelopeBytes(stream);
    version := e.version;
  }

  lemma EnvelopeBytes(p: seq<byte>)
    requires GetEnvelope(p).Got?
    ensures var e := GetEnvelope(p).value;
            p == e.magic + Put16(e.version, Put16(e.kind, Put16(e.flags, Put16(e.reserved,
                   Put32(e.length, Put64(e.sequence, GetEnvelope(p).rest))))))
  {
    hide Put16, Get16, Put32, Get32, Put64, Get64;
    var p1 := p[4..];
    assert p == p[..4] + p1;
    var p2 := Get16(p1).rest;
    var p3 := Get16(p2).rest;
    var p4 := Get16(p3).rest;
    var p5 := Get16(p4).rest;
    var p6 := Get32(p5).rest;
    Field16(0, p1);
    Field16(0, p2);
    Field16(0, p3);
    Field16(0, p4);
    Field32(0, p5);
    Field64(0, p6);
  }

  // ----- streams

  /** A session script: records, and the points where both ends pin a version. */
  datatype Item = Sent(message: Message) | Pinned(version: nat)

  /** The bytes an encoder at `sequence` and `version` writes for a script. */
  function EncodeScript(items: seq<Item>, sequence: nat, version: nat): seq<byte>
    decreases |items|
  {
    if items == [] then []
    else match items[0]
         case Pinned(v) => EncodeScript(items[1..], sequence, v)
         case Sent(m) => Record(m, version, sequence + 1, EncodeScript(items[1..], sequence + 1, version))
  }

  /** None of the script's messages is refused by the encoder. */
  ghost predicate Accepted(items: seq<Item>, sequence: nat, version: nat, limits: Limits)
    decreases |items|
  {
    items == [] ||
    match items[0]
    case Pinned(v) => v <= U16_MAX && Accepted(items[1..], sequence, v, limits)
    case Sent(m) => Encodable(m, version, sequence + 1, limits) && Accepted(items[1..], sequence + 1, version, limits)
  }

  function SentMessages(items: seq<Item>): seq<Message> {
    if items == [] then []
    else match items[0]
         case Pinned(_) => SentMessages(items[1..])
         case Sent(m) => [m] + SentMessages(items[1..])
  }

  /** Reads a stream along a script, pinning where the script does: the messages, the bytes
      left, and the error that stopped it, if any. */
  function DecodeScript(items: seq<Item>, d: Receiver, stream: seq<byte>, limits: Limits)
    : (seq<Message>, seq<byte>, Option<Error>)
    decreases |items|
  {
    if items == [] then ([], stream, None)
    else match items[0]
         case Pinned(v) => DecodeScript(items[1..], Pin(d, v), stream, limits)
         case Sent(_) =>
           match DecodeRecord(d, stream, limits)
           case Err(e) => ([], stream, Some(e))
           case Ok((m, rest)) =>
             var (ms, left, err) := DecodeScript(items[1..], Advance(d), rest, limits);
             ([m] + ms, left, err)
  }

  /** Record stream: with the pins applied at matching points, decoding what was encoded
      gives back exactly the messages sent, and no byte is left over. */
  lemma {:induction false} StreamRoundTrip(items: seq<Item>, d: Receiver, version: nat, limits: Limits)
    requires Accepted(items, d.sequence, version, limits) && d.minVersion <= version <= d.maxVersion
    ensures DecodeScript(items, d, EncodeScript(items, d.sequence, version), limits) == (SentMessages(items), [], None)
    decreases |items|
  {
    hide Record, DecodeRecord, Encodable;
    if items != [] {
      match items[0]
      case Pinned(v) =>
        StreamRoundTrip(items[1..], Pin(d, v), v, limits);
      case Sent(m) =>
        DecodeOfRecord(d, m, version, d.sequence + 1, EncodeScript(items[1..], d.sequence + 1, version), limits);
        StreamRoundTrip(items[1..], Advance(d), version, limits);
    }
  }

  // ----- records deleted, repeated or reordered on the way

  /** The concatenation of some of the records 1, 2, ... of a sent list, each with the version
      its sender was pinned to, in any order and with any repetition. */
  function Shuffled(ms: seq<Message>, versions: seq<nat>, order: seq<nat>): seq<byte>
    requires |versions| == |ms| && forall k :: 0 <= k < |order| ==> order[k] < |ms|
  {
    if order == [] then []
    else Record(ms[order[0]], versions[order[0]], order[0] + 1, Shuffled(ms, versions, order[1..]))
  }

  /** How many leading entries count up from `next`. */
  function InOrder(order: seq<nat>, next: nat): (n: nat)
    ensures n <= |order|
    decreases |order|
  {
    if order == [] || order[0] != next then 0 else 1 + InOrder(order[1..], next + 1)
  }

  datatype Window = Window(min: nat, max: nat)

  predicate Allows(w: Window, version: nat) { w.min <= version <= w.max }

  /** Decodes until the stream ends or a record is refused, under the window the receiver has
      set or pinned after that many records. */
  function DecodeMany(received: nat, window: nat -> Window, stream: seq<byte>, limits: Limits)
    : (seq<Message>, Option<Error>)
    decreases |stream|
  {
    if stream == [] then ([], None)
    else match DecodeRecord(Receiver(received, window(received).min, window(received).max), stream, limits)
         case Err(e) => ([], Some(e))
         case Ok((m, rest)) =>
           var (ms, err) := DecodeMany(received + 1, window, rest, limits);
           ([m] + ms, err)
  }

  lemma RecordIsNotEmpty(m: Message, version: nat, sequence: nat, tail: seq<byte>)
    ensures Record(m, version, sequence, tail) != []
  {
  }

  /** Strict numbering: whatever records of a session reach the receiver, however deleted,
      repeated or reordered, also across the points where versions are pinned, it delivers
      exactly the records that arrived in order and stops at the first displaced one. */
  lemma {:induction false} DisplacedRecordStopsStream(ms: seq<Message>, versions: seq<nat>, order: seq<nat>,
                                                      received: nat, window: nat -> Window, limits: Limits)
    requires |versions| == |ms| && received <= |ms|
    requires forall k :: 0 <= k < |ms| ==> Encodable(ms[k], versions[k], k + 1, limits)
    requires forall k :: 0 <= k < |ms| ==> Allows(window(k), versions[k])
    requires forall k :: 0 <= k < |order| ==> order[k] < |ms|
    ensures var n := InOrder(order, received);
            received + n <= |ms|
            && DecodeMany(received, window, Shuffled(ms, versions, order), limits)
               == (ms[received..received + n],
                   if n == |order| then None
                   else if Allows(window(received + n), versions[order[n]]) then Some(BadSequence)
                   else Some(BadVersion))
    decreases |order|
  {
    hide Record, DecodeRecord, Encodable;
    if order != [] {
      var i, tail := order[0], Shuffled(ms, versions, order[1..]);
      RecordIsNotEmpty(ms[i], versions[i], i + 1, tail);
      DecodeOfRecord(Receiver(received, window(received).min, window(received).max), ms[i], versions[i], i + 1,
                     tail, limits);
      if i == received {
        assert Allows(window(i), versions[i]);
        DisplacedRecordStopsStream(ms, versions, order[1..], received + 1, window, limits);
        var n := InOrder(order[1..], received + 1);
        assert ms[received..received + 1 + n] == [ms[i]] + ms[received + 1..received + 1 + n];
      }
    }
    assert ms[received..received] == [];
  }
}
