/**
 USB containers (crates/mtp-rs/src/ptp/container.rs) and the session-less receive loop that
 reassembles them from bulk transfers (crates/mtp-rs/src/ptp/device.rs).
 */
module Container {
  import opened Common
  import opened Pack

  const HEADER_SIZE := 12

  datatype ContainerType = Command | Data | Response | Event

  const RESPONSE_OK: u16 := 0x2001
  const GET_DEVICE_INFO: u16 := 0x1001

  function TypeFromCode(code: u16): Option<ContainerType> {
    match code
    case 1 => Some(Command)
    case 2 => Some(Data)
    case 3 => Some(Response)
    case 4 => Some(Event)
    case _ => None
  }

  function TypeCode(t: ContainerType): u16 {
    match t
    case Command => 1
    case Data => 2
    case Response => 3
    case Event => 4
  }

  /** The type field of a buffer that has at least a header. */
  function TypeOf(buf: seq<byte>): Result<ContainerType, PtpError> {
    if |buf| < HEADER_SIZE then Err(InvalidData)
    else
      var code :- UnpackU16(buf[4..6]);
      match TypeFromCode(code)
      case None => Err(InvalidData)
      case Some(t) => Ok(t)
  }

  datatype DataContainer = DataContainer(code: u16, transaction: u32, payload: seq<byte>)

  datatype ResponseContainer = ResponseContainer(code: u16, transaction: u32, params: seq<u32>)

  function Header(length: u32, t: ContainerType, code: u16, transaction: u32): (h: seq<byte>)
    ensures |h| == HEADER_SIZE
  {
    PackU32(length) + PackU16(TypeCode(t)) + PackU16(code) + PackU32(transaction)
  }

  /** The length field holds the low 32 bits of the container's size. */
  function DataBytes(c: DataContainer): seq<byte> {
    Header((HEADER_SIZE + |c.payload|) % 0x1_0000_0000, Data, c.code, c.transaction) + c.payload
  }

  /** Header fields of a buffer that starts with a container of type `want` and fits inside it. */
  function ParseHeader(buf: seq<byte>, want: ContainerType): (r: Result<(u32, u16, u32), PtpError>)
    ensures r.Ok? ==> HEADER_SIZE <= r.value.0 <= |buf|
  {
    if |buf| < HEADER_SIZE then Err(InvalidData)
    else
      var length :- UnpackU32(buf[0..4]);
      var code :- UnpackU16(buf[4..6]);
      var op :- UnpackU16(buf[6..8]);
      var transaction :- UnpackU32(buf[8..12]);
      if code != TypeCode(want) || length < HEADER_SIZE || |buf| < length then Err(InvalidData)
      else Ok((length, op, transaction))
  }

  function ParseData(buf: seq<byte>): Result<DataContainer, PtpError> {
    var (length, code, transaction) :- ParseHeader(buf, Data);
    Ok(DataContainer(code, transaction, buf[HEADER_SIZE..length]))
  }

  lemma {:induction false} HeaderParses(length: u32, t: ContainerType, code: u16, transaction: u32, rest: seq<byte>)
    requires HEADER_SIZE <= length <= HEADER_SIZE + |rest|
    ensures ParseHeader(Header(length, t, code, transaction) + rest, t) == Ok((length, code, transaction))
    ensures TypeOf(Header(length, t, code, transaction) + rest) == Ok(t)
  {
    hide PackU16, PackU32, UnpackU16, UnpackU32;
    var buf := Header(length, t, code, transaction) + rest;
    PackLengths(length, TypeCode(t));
    PackLengths(transaction, code);
    assert buf[0..4] == PackU32(length) + [];
    assert buf[4..6] == PackU16(TypeCode(t)) + [];
    assert buf[6..8] == PackU16(code) + [];
    assert buf[8..12] == PackU32(transaction) + [];
    U32RoundTrip(length, []);
    U16RoundTrip(TypeCode(t), []);
    U16RoundTrip(code, []);
    U32RoundTrip(transaction, []);
  }

  lemma {:induction false} PackLengths(a: u32, b: u16)
    ensures |PackU32(a)| == 4 && |PackU16(b)| == 2
  {
  }

  /** Below 4 GiB a data container parses back, whatever follows it in the buffer. */
  lemma {:induction false} DataRoundTrip(c: DataContainer, rest: seq<byte>)
    requires HEADER_SIZE + |c.payload| < 0x1_0000_0000
    ensures ParseData(DataBytes(c) + rest) == Ok(c)
    ensures TypeOf(DataBytes(c) + rest) == Ok(Data)
  {
    hide Header, ParseHeader, TypeOf;
    var length := HEADER_SIZE + |c.payload|;
    HeaderParses(length, Data, c.code, c.transaction, c.payload + rest);
    var h := Header(length, Data, c.code, c.transaction);
    assert DataBytes(c) + rest == h + (c.payload + rest);
    assert (h + (c.payload + rest))[HEADER_SIZE..length] == c.payload;
  }

  // --- Responses ---

  /** `bytes` as consecutive little-endian words. */
  function Words(bytes: seq<byte>): seq<u32> {
    if |bytes| < 4 then [] else [Le32(bytes[0], bytes[1], bytes[2], bytes[3])] + Words(bytes[4..])
  }

  function ParsedResponse(buf: seq<byte>): Result<ResponseContainer, PtpError> {
    var (length, code, transaction) :- ParseHeader(buf, Response);
    if (length - HEADER_SIZE) % 4 != 0 then Err(InvalidData)
    else Ok(ResponseContainer(code, transaction, Words(buf[HEADER_SIZE..length])))
  }

  method ParseResponse(buf: seq<byte>) returns (r: Result<ResponseContainer, PtpError>)
    ensures r == ParsedResponse(buf)
  {
    var header :- ParseHeader(buf, Response);
    var (length, code, transaction) := header;
    var paramBytes := length - HEADER_SIZE;
    if paramBytes % 4 != 0 {
      return Err(InvalidData);
    }
    var paramCount := paramBytes / 4;
    var params: seq<u32> := [];
    ghost var body := buf[HEADER_SIZE..length];
    for i := 0 to paramCount
      invariant params + Words(body[4 * i..]) == Words(body)
    {
      var offset := HEADER_SIZE + i * 4;
      var param := UnpackU32(buf[offset..]).value;
      assert body[4 * i..][4..] == body[4 * (i + 1)..];
      params := params + [param];
    }
    assert body[4 * paramCount..] == [] && params + [] == params;
    return Ok(ResponseContainer(code, transaction, params));
  }

  /** A buffer has a header exactly when it is long enough, of that type, and holds the length it says. */
  lemma {:induction false} HeaderIsRead(buf: seq<byte>, want: ContainerType)
    ensures ParseHeader(buf, want).Ok? <==>
            && |buf| >= 12
            && buf[4] as int + buf[5] as int * 0x100 == (match want case Command => 1 case Data => 2 case Response => 3 case Event => 4)
            && 12 <= Le32(buf[0], buf[1], buf[2], buf[3]) <= |buf|
    ensures ParseHeader(buf, want).Ok? ==>
              ParseHeader(buf, want).value ==
              (Le32(buf[0], buf[1], buf[2], buf[3]), Le16(buf[6], buf[7]), Le32(buf[8], buf[9], buf[10], buf[11]))
  {
  }

  function WordBytes(params: seq<u32>): (b: seq<byte>)
    ensures |b| == 4 * |params|
  {
    if params == [] then [] else PackU32(params[0]) + WordBytes(params[1..])
  }

  lemma {:induction false} WordsInvertBytes(params: seq<u32>)
    ensures Words(WordBytes(params)) == params
  {
    if params != [] {
      WordsInvertBytes(params[1..]);
      U32RoundTrip(params[0], WordBytes(params[1..]));
      assert WordBytes(params)[4..] == WordBytes(params[1..]);
    }
  }

  /** A response's parameters read back, whatever follows it; a body that isn't whole words is refused. */
  lemma {:induction false} ResponseRoundTrip(c: ResponseContainer, rest: seq<byte>)
    requires HEADER_SIZE + 4 * |c.params| < 0x1_0000_0000
    ensures var h := Header(HEADER_SIZE + 4 * |c.params|, Response, c.code, c.transaction);
            ParsedResponse(h + WordBytes(c.params) + rest) == Ok(c)
  {
    hide Header, ParseHeader, WordBytes, Words;
    var length := HEADER_SIZE + 4 * |c.params|;
    var h, body := Header(length, Response, c.code, c.transaction), WordBytes(c.params);
    HeaderParses(length, Response, c.code, c.transaction, body + rest);
    assert h + body + rest == h + (body + rest);
    assert (h + (body + rest))[HEADER_SIZE..length] == body;
    WordsInvertBytes(c.params);
  }

  lemma {:induction false} RaggedIsRefused(buf: seq<byte>)
    ensures ParsedResponse(buf).Ok? <==>
            ParseHeader(buf, Response).Ok? && (ParseHeader(buf, Response).value.0 - HEADER_SIZE) % 4 == 0
  {
  }

  // --- Receiving ---

  /** What one bulk read came to. An exhausted script reads as a timeout. */
  type Transfer = Result<seq<byte>, PtpError>

  /** Reads on until `bytes` holds `total` bytes: the bytes, and the transfers left. */
  function Filled(bytes: seq<byte>, total: nat, ts: seq<Transfer>): Result<(seq<byte>, seq<Transfer>), PtpError>
    decreases |ts|
  {
    if |bytes| >= total then Ok((bytes, ts))
    else if ts == [] then Err(Timeout)
    else
      var more :- ts[0];
      if more == [] then Err(InvalidData) else Filled(bytes + more, total, ts[1..])
  }

  lemma {:induction false} FilledShortens(bytes: seq<byte>, total: nat, ts: seq<Transfer>)
    ensures Filled(bytes, total, ts).Ok? ==> |Filled(bytes, total, ts).value.1| <= |ts|
    decreases |ts|
  {
    if |bytes| < total && ts != [] && ts[0].Ok? {
      FilledShortens(bytes + ts[0].value, total, ts[1..]);
    }
  }

  /** The payloads of the data containers before the response, in order, after `payload`. */
  function Received(payload: seq<byte>, ts: seq<Transfer>): Result<seq<byte>, PtpError>
    decreases |ts|
  {
    if ts == [] then Err(Timeout)
    else
      var first :- ts[0];
      var ct :- TypeOf(first);
      match ct
      case Data =>
        var total :- UnpackU32(first[0..4]);
        FilledShortens(first, total, ts[1..]);
        var (bytes, rest) :- Filled(first, total, ts[1..]);
        var container :- ParseData(bytes);
        Received(payload + container.payload, rest)
      case Response =>
        var response :- ParsedResponse(first);
        if response.code != RESPONSE_OK then Err(Protocol(response.code, GET_DEVICE_INFO)) else Ok(payload)
      case Command => Err(InvalidData)
      case Event => Err(InvalidData)
  }

  /** The receive loop. `incoming` scripts the transport: each receive takes its next transfer. */
  method ReceiveDataset(incoming: seq<Transfer>) returns (r: Result<seq<byte>, PtpError>)
    ensures r == Received([], incoming)
  {
    var payload: seq<byte> := [];
    var ts := incoming;
    while true
      invariant Received(payload, ts) == Received([], incoming)
      decreases |ts|
    {
      if |ts| == 0 {
        return Err(Timeout);
      }
      ghost var before := ts;
      var bytes :- ts[0];
      ts := ts[1..];
      if |bytes| == 0 {
        return Err(InvalidData);
      }
      var ct :- TypeOf(bytes);
      match ct {
        case Data =>
          var total := UnpackU32(bytes[0..4]).value;
          ghost var filled := Filled(bytes, total, ts);
          while |bytes| < total
            invariant Filled(bytes, total, ts) == filled
            invariant |ts| < |before|
            decreases |ts|
          {
            if |ts| == 0 {
              return Err(Timeout);
            }
            var more :- ts[0];
            ts := ts[1..];
            if |more| == 0 {
              return Err(InvalidData);
            }
            bytes := bytes + more;
          }
          var container :- ParseData(bytes);
          payload := payload + container.payload;
        case Response =>
          var response :- ParseResponse(bytes);
          if response.code != RESPONSE_OK {
            return Err(Protocol(response.code, GET_DEVICE_INFO));
          }
          return Ok(payload);
        case Command => return Err(InvalidData);
        case Event => return Err(InvalidData);
      }
    }
  }

  /** `pieces` is one way a device may cut `whole` into transfers: none empty, the header uncut. */
  predicate CutOf(pieces: seq<seq<byte>>, whole: seq<byte>) {
    && Flatten(pieces) == whole
    && pieces != [] && |pieces[0]| >= HEADER_SIZE
    && forall i :: 0 <= i < |pieces| ==> pieces[i] != []
  }

  function Arrived(pieces: seq<seq<byte>>): (ts: seq<Transfer>)
    ensures |ts| == |pieces| && forall i :: 0 <= i < |ts| ==> ts[i] == Ok(pieces[i])
  {
    seq(|pieces|, i requires 0 <= i < |pieces| => Ok(pieces[i]))
  }

  lemma {:induction false} PiecesFill(bytes: seq<byte>, pieces: seq<seq<byte>>, rest: seq<Transfer>)
    requires forall i :: 0 <= i < |pieces| ==> pieces[i] != []
    ensures Filled(bytes, |bytes| + |Flatten(pieces)|, Arrived(pieces) + rest) == Ok((bytes + Flatten(pieces), rest))
    decreases |pieces|
  {
    var ts := Arrived(pieces) + rest;
    if pieces == [] {
      assert ts == rest && bytes + Flatten(pieces) == bytes;
    } else {
      assert ts[1..] == Arrived(pieces[1..]) + rest;
      PiecesFill(bytes + pieces[0], pieces[1..], rest);
      assert bytes + pieces[0] + Flatten(pieces[1..]) == bytes + Flatten(pieces);
    }
  }

  /** One container, however it is cut, adds exactly its payload. */
  lemma {:induction false} CutContainerReceived(c: DataContainer, pieces: seq<seq<byte>>, payload: seq<byte>, rest: seq<Transfer>)
    requires HEADER_SIZE + |c.payload| < 0x1_0000_0000 && CutOf(pieces, DataBytes(c))
    ensures Received(payload, Arrived(pieces) + rest) == Received(payload + c.payload, rest)
  {
    hide DataBytes, ParseData, TypeOf, UnpackU32, Filled;
    var ts := Arrived(pieces) + rest;
    var first, tail := pieces[0], Flatten(pieces[1..]);
    var bytes := DataBytes(c);
    assert bytes == first + tail;
    DataRoundTrip(c, []);
    assert bytes + [] == bytes;
    FirstHasHeader(first, tail);
    assert UnpackU32(bytes[0..4]) == Ok(|bytes|) by { LengthField(c); }
    assert ts[0] == Ok(first) && ts[1..] == Arrived(pieces[1..]) + rest;
    PiecesFill(first, pieces[1..], rest);
  }

  lemma {:induction false} FirstHasHeader(first: seq<byte>, tail: seq<byte>)
    requires |first| >= HEADER_SIZE
    ensures first[0..4] == (first + tail)[0..4] && TypeOf(first) == TypeOf(first + tail)
  {
  }

  lemma {:induction false} LengthField(c: DataContainer)
    requires HEADER_SIZE + |c.payload| < 0x1_0000_0000
    ensures UnpackU32(DataBytes(c)[0..4]) == Ok(|DataBytes(c)|)
  {
    hide PackU16, PackU32, UnpackU32;
    U32RoundTrip(HEADER_SIZE + |c.payload|, []);
    PackLengths(HEADER_SIZE + |c.payload|, 0);
    assert DataBytes(c)[0..4] == PackU32(HEADER_SIZE + |c.payload|) + [];
  }

  /** A response ends the data phase: an Ok one with what came, any other with its code. */
  lemma {:induction false} ResponseDecides(payload: seq<byte>, response: seq<byte>, rest: seq<Transfer>)
    requires ParsedResponse(response).Ok?
    ensures Received(payload, [Ok(response)] + rest) ==
            if ParsedResponse(response).value.code == 0x2001 then Ok(payload)
            else Err(Protocol(ParsedResponse(response).value.code, 0x1001))
  {
    HeaderIsRead(response, Response);
    assert TypeOf(response) == Ok(Response);
  }

  /** Whatever isn't data or a response is an error, and so is a transfer that failed; nothing is skipped over. */
  lemma {:induction false} OtherIsRefused(payload: seq<byte>, first: Transfer, rest: seq<Transfer>)
    ensures first.Err? ==> Received(payload, [first] + rest) == Err(first.error)
    ensures first.Ok? && (|first.value| < 12 || Le16(first.value[4], first.value[5]) !in {2, 3}) ==>
              Received(payload, [first] + rest) == Err(InvalidData)
    ensures Received(payload, []) == Err(Timeout)
  {
    assert ([first] + rest)[0] == first;
  }

  /** A data container that stops short is never taken: an empty transfer or a failed one ends the reading. */
  lemma {:induction false} ShortContainerIsRefused(
    payload: seq<byte>, c: DataContainer, pieces: seq<seq<byte>>, more: seq<byte>, last: Transfer, rest: seq<Transfer>)
    requires HEADER_SIZE + |c.payload| < 0x1_0000_0000 && more != [] && CutOf(pieces + [more], DataBytes(c)) && pieces != []
    ensures last.Err? ==> Received(payload, Arrived(pieces) + [last] + rest) == Err(last.error)
    ensures last == Ok([]) ==> Received(payload, Arrived(pieces) + [last] + rest) == Err(InvalidData)
  {
    hide DataBytes, ParseData, TypeOf, UnpackU32, Filled;
    var ts := Arrived(pieces) + [last] + rest;
    var first, tail := pieces[0], Flatten((pieces + [more])[1..]);
    var bytes := DataBytes(c);
    assert bytes == first + tail;
    DataRoundTrip(c, []);
    assert bytes + [] == bytes;
    FirstHasHeader(first, tail);
    assert UnpackU32(bytes[0..4]) == Ok(|bytes|) by { LengthField(c); }
    assert ts[0] == Ok(first) && ts[1..] == Arrived(pieces[1..]) + ([last] + rest);
    assert (pieces + [more])[1..] == pieces[1..] + [more];
    FlattenAppend(pieces[1..], more);
    assert |bytes| == |first| + |Flatten(pieces[1..])| + |more|;
    assert forall i :: 0 <= i < |pieces| - 1 ==> pieces[1..][i] == (pieces + [more])[i + 1];
    if last.Err? || last == Ok([]) {
      StopsShort(first, |bytes|, pieces[1..], last, rest);
    }
  }

  lemma {:induction false} StopsShort(bytes: seq<byte>, total: nat, pieces: seq<seq<byte>>, last: Transfer, rest: seq<Transfer>)
    requires |bytes| + |Flatten(pieces)| < total && forall i :: 0 <= i < |pieces| ==> pieces[i] != []
    requires last.Err? || last == Ok([])
    ensures Filled(bytes, total, Arrived(pieces) + ([last] + rest)) == Err(if last.Err? then last.error else InvalidData)
    decreases |pieces|
  {
    var ts := Arrived(pieces) + ([last] + rest);
    if pieces == [] {
      assert ts[0] == last;
    } else {
      assert ts[1..] == Arrived(pieces[1..]) + ([last] + rest);
      StopsShort(bytes + pieces[0], total, pieces[1..], last, rest);
    }
  }

  function Payloads(cs: seq<DataContainer>): seq<byte> {
    if cs == [] then [] else cs[0].payload + Payloads(cs[1..])
  }

  /**
   However a device cuts its data containers below 4 GiB, the loop returns their payloads, end to
   end, once an Ok response follows.
   */
  lemma {:induction false} CutContainersReceived(
    cs: seq<DataContainer>, cuts: seq<seq<seq<byte>>>, payload: seq<byte>, response: seq<byte>, rest: seq<Transfer>)
    requires |cs| == |cuts|
    requires forall i :: 0 <= i < |cs| ==>
               HEADER_SIZE + |cs[i].payload| < 0x1_0000_0000 && CutOf(cuts[i], DataBytes(cs[i]))
    requires ParsedResponse(response).Ok? && ParsedResponse(response).value.code == RESPONSE_OK
    ensures Received(payload, Arrived(Flatten(cuts)) + [Ok(response)] + rest) == Ok(payload + Payloads(cs))
    decreases |cs|
  {
    hide DataBytes, ParsedResponse, CutOf, Received;
    var end := [Ok(response)] + rest;
    assert Arrived(Flatten(cuts)) + [Ok(response)] + rest == Arrived(Flatten(cuts)) + end;
    if cs == [] {
      assert Arrived(Flatten(cuts)) + end == end && payload + Payloads(cs) == payload;
      ResponseEnds(payload, response, rest);
    } else {
      ArrivedSplits(cuts, end);
      CutContainerReceived(cs[0], cuts[0], payload, Arrived(Flatten(cuts[1..])) + end);
      CutContainersReceived(cs[1..], cuts[1..], payload + cs[0].payload, response, rest);
      assert Arrived(Flatten(cuts[1..])) + [Ok(response)] + rest == Arrived(Flatten(cuts[1..])) + end;
      assert payload + cs[0].payload + Payloads(cs[1..]) == payload + Payloads(cs);
    }
  }

  lemma {:induction false} ArrivedSplits(cuts: seq<seq<seq<byte>>>, end: seq<Transfer>)
    requires cuts != []
    ensures Arrived(Flatten(cuts)) + end == Arrived(cuts[0]) + (Arrived(Flatten(cuts[1..])) + end)
  {
  }

  lemma {:induction false} ResponseEnds(payload: seq<byte>, response: seq<byte>, rest: seq<Transfer>)
    requires ParsedResponse(response).Ok? && ParsedResponse(response).value.code == RESPONSE_OK
    ensures Received(payload, [Ok(response)] + rest) == Ok(payload)
  {
  }
}
