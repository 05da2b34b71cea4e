/**
 Bulk-OUT streaming, crates/mtp-rs/src/transport/nusb.rs: chunks of any size are repacked into
 fixed-size USB transfers, closed by a short packet or a zero-length one. The partner is the
 receiving end: a device that takes packets until one is short.
 */
module BulkOut {
  import opened Common

  const TARGET_TRANSFER := 256 * 1024

  /** 256 KiB rounded up to whole packets. */
  function TransferSize(packet: nat): nat
    requires packet > 0
  {
    Max((TARGET_TRANSFER + packet - 1) / packet, 1) * packet
  }

  lemma {:induction false} TransferIsWholePackets(packet: nat)
    requires packet > 0
    ensures TransferSize(packet) % packet == 0 && TransferSize(packet) >= packet
    ensures TransferSize(packet) >= 262_144 && TransferSize(packet) - packet < 262_144
  {
    var k := Max((TARGET_TRANSFER + packet - 1) / packet, 1);
    MultipleHasNoRemainder(k, packet, 0);
    assert (k - 1) * packet >= 0;
  }

  lemma {:induction false} MultipleHasNoRemainder(k: nat, m: int, a: nat)
    requires m > 0
    ensures (k * m + a) % m == a % m
  {
    var x := k * m + a;
    var d := k + a / m - x / m;
    assert d * m == x % m - a % m by {
      assert a == a / m * m + a % m && x == x / m * m + x % m;
    }
    assert d >= 1 ==> d * m >= m;
    assert d <= -1 ==> d * m <= -m;
  }

  /** The bytes of the chunks before the first failing one. */
  function Data<E>(chunks: seq<Result<seq<byte>, E>>): seq<byte> {
    if chunks == [] || chunks[0].Err? then [] else chunks[0].value + Data(chunks[1..])
  }

  /** `data` cut into buffers of `size` bytes, the last one possibly shorter. */
  function Chop(data: seq<byte>, size: nat): seq<seq<byte>>
    requires size > 0
  {
    if data == [] then []
    else if |data| < size then [data]
    else [data[..size]] + Chop(data[size..], size)
  }

  /** What a successful send submits: the cut data, then a zero-length packet if none was short. */
  function Submissions(data: seq<byte>, packet: nat): seq<seq<byte>>
    requires packet > 0
  {
    Chop(data, TransferSize(packet)) + (if data != [] && |data| % packet == 0 then [[]] else [])
  }

  predicate AllFull(bufs: seq<seq<byte>>, size: nat) {
    forall i :: 0 <= i < |bufs| ==> |bufs[i]| == size
  }

  lemma {:induction false} ChopOfFull(full: seq<seq<byte>>, more: seq<byte>, size: nat)
    requires size > 0 && AllFull(full, size)
    ensures Chop(Flatten(full) + more, size) == full + Chop(more, size)
  {
    if full == [] {
      assert Flatten(full) + more == more;
    } else {
      var data, rest := Flatten(full) + more, Flatten(full[1..]) + more;
      assert data == full[0] + rest;
      assert data[..size] == full[0] && data[size..] == rest;
      ChopOfFull(full[1..], more, size);
    }
  }

  lemma {:induction false} FullBytes(full: seq<seq<byte>>, size: nat)
    requires AllFull(full, size)
    ensures |Flatten(full)| == |full| * size
  {
    if full != [] {
      FullBytes(full[1..], size);
    }
  }

  /** Mid-send: `submitted` is full buffers, `current` is being filled, `rest` is still to come. */
  ghost predicate Sending(
    data: seq<byte>, submitted: seq<seq<byte>>, current: seq<byte>, rest: seq<byte>, size: nat) {
    && size > 0 && AllFull(submitted, size)
    && data == Flatten(submitted) + current + rest
  }

  lemma {:induction false} CopyBytes(
    data: seq<byte>, submitted: seq<seq<byte>>, current: seq<byte>, remaining: seq<byte>, later: seq<byte>,
    size: nat, n: nat)
    requires Sending(data, submitted, current, remaining + later, size) && n <= |remaining|
    ensures Sending(data, submitted, current + remaining[..n], remaining[n..] + later, size)
  {
  }

  lemma {:induction false} SubmitFull(data: seq<byte>, submitted: seq<seq<byte>>, current: seq<byte>, rest: seq<byte>, size: nat)
    requires Sending(data, submitted, current, rest, size) && |current| == size
    ensures Sending(data, submitted + [current], [], rest, size)
  {
    FlattenAppend(submitted, current);
    assert Flatten(submitted) + current + [] + rest == Flatten(submitted) + current + rest;
  }

  lemma {:induction false} SubmittedSoFar(data: seq<byte>, submitted: seq<seq<byte>>, current: seq<byte>, rest: seq<byte>, packet: nat)
    requires packet > 0 && Sending(data, submitted, current, rest, TransferSize(packet))
    ensures submitted <= Submissions(data, packet)
  {
    assert data == Flatten(submitted) + (current + rest);
    ChopOfFull(submitted, current + rest, TransferSize(packet));
  }

  /** The partial buffer, if any, and a zero-length packet unless it was short or nothing was sent. */
  function Tail(nothingSent: bool, current: seq<byte>, packet: nat): seq<seq<byte>>
    requires packet > 0
  {
    if current == [] then (if nothingSent then [] else [[]])
    else if |current| % packet == 0 then [current, []]
    else [current]
  }

  /** With everything copied, what is left to submit is the partial buffer and the terminator. */
  lemma {:induction false} SubmitTail(data: seq<byte>, submitted: seq<seq<byte>>, current: seq<byte>, packet: nat)
    requires packet > 0 && Sending(data, submitted, current, [], TransferSize(packet))
    requires |current| < TransferSize(packet)
    ensures Submissions(data, packet) == submitted + Tail(submitted == [], current, packet)
    ensures |submitted| * TransferSize(packet) % packet == 0
    ensures submitted == [] <==> |submitted| * TransferSize(packet) == 0
  {
    var size := TransferSize(packet);
    TailRemainder(|submitted|, |current|, packet);
    TailRemainder(|submitted|, 0, packet);
    hide TransferSize;
    assert data == Flatten(submitted) + current;
    ChopOfFull(submitted, current, size);
    FullBytes(submitted, size);
    assert submitted != [] ==> |submitted| * size >= size;
    assert |data| == |submitted| * size + |current|;
    assert Chop(current, size) == if current == [] then [] else [current];
    hide Chop;
    assert |current| % packet == 0 ==> [current] + [[]] == [current, []];
  }

  predicate Completed(completion: nat -> Option<PtpError>, n: nat) {
    forall k: nat :: k < n ==> completion(k) == None
  }

  /** Copies one chunk into the buffer being filled, submitting it each time it is full. */
  method CopyChunk(
    chunk: seq<byte>, packet: nat, completion: nat -> Option<PtpError>,
    submitted0: seq<seq<byte>>, current0: seq<byte>, ghost data: seq<byte>, ghost later: seq<byte>
  ) returns (r: Result<(), PtpError>, submitted: seq<seq<byte>>, current: seq<byte>)
    requires packet > 0 && |current0| < TransferSize(packet)
    requires Sending(data, submitted0, current0, chunk + later, TransferSize(packet))
    requires Completed(completion, |submitted0|)
    ensures submitted <= Submissions(data, packet)
    ensures r.Ok? <==> Completed(completion, |submitted|)
    ensures r.Ok? ==> |current| < TransferSize(packet)
    ensures r.Ok? ==> Sending(data, submitted, current, later, TransferSize(packet))
  {
    hide TransferSize, Submissions, Sending;
    var transferSize := TransferSize(packet);
    submitted, current := submitted0, current0;
    var remaining := chunk;
    SubmittedSoFar(data, submitted, current, chunk + later, packet);
    while remaining != []
      invariant Sending(data, submitted, current, remaining + later, transferSize)
      invariant |current| < transferSize && submitted <= Submissions(data, packet)
      invariant Completed(completion, |submitted|)
      decreases |remaining|
    {
      var space := transferSize - |current|;
      var toCopy := Min(|remaining|, space);
      CopyBytes(data, submitted, current, remaining, later, transferSize, toCopy);
      current := current + remaining[..toCopy];
      remaining := remaining[toCopy..];
      if |current| == transferSize {
        SubmitFull(data, submitted, current, remaining + later, transferSize);
        SubmittedSoFar(data, submitted + [current], [], remaining + later, packet);
        submitted := submitted + [current];
        if completion(|submitted| - 1).Some? {
          return Err(completion(|submitted| - 1).value), submitted, current;
        }
        current := [];
      }
    }
    assert remaining + later == later;
    r := Ok(());
  }

  /** Submits the partial buffer, then a zero-length packet unless the last packet was short. */
  method SubmitRemainder(
    packet: nat, completion: nat -> Option<PtpError>, submitted0: seq<seq<byte>>, current: seq<byte>,
    ghost data: seq<byte>
  ) returns (r: Result<(), PtpError>, submitted: seq<seq<byte>>)
    requires packet > 0 && |current| < TransferSize(packet)
    requires Sending(data, submitted0, current, [], TransferSize(packet))
    requires Completed(completion, |submitted0|)
    ensures submitted <= Submissions(data, packet)
    ensures r.Ok? <==> Completed(completion, |submitted|)
    ensures r.Ok? ==> submitted == Submissions(data, packet)
  {
    SubmitTail(data, submitted0, current, packet);
    hide TransferSize, Submissions, Sending;
    // The source counts this as full buffers complete.
    var totalSent := |submitted0| * TransferSize(packet);
    submitted := submitted0;
    var finalLen := |current|;
    if finalLen > 0 {
      submitted := submitted + [current];
      if completion(|submitted| - 1).Some? {
        return Err(completion(|submitted| - 1).value), submitted;
      }
      if finalLen % packet == 0 {
        submitted := submitted + [[]];
        if completion(|submitted| - 1).Some? {
          return Err(completion(|submitted| - 1).value), submitted;
        }
      }
    } else if totalSent > 0 && totalSent % packet == 0 {
      submitted := submitted + [[]];
      if completion(|submitted| - 1).Some? {
        return Err(completion(|submitted| - 1).value), submitted;
      }
    }
    r := Ok(());
  }

  /**
   The send. `completion(n)` scripts the n-th transfer's status. `submitted` is what went to the
   endpoint: all of `Submissions` on success, a prefix of it when the stream or a transfer fails,
   and it succeeds exactly when neither does.
   */
  method SendBulkStreaming<E>(
    chunks: seq<Result<seq<byte>, E>>, packet: nat, completion: nat -> Option<PtpError>
  ) returns (r: Result<(), PtpError>, submitted: seq<seq<byte>>)
    requires packet > 0
    ensures submitted <= Submissions(Data(chunks), packet)
    ensures r.Ok? <==> (forall i :: 0 <= i < |chunks| ==> chunks[i].Ok?) && Completed(completion, |submitted|)
    ensures r.Ok? ==> submitted == Submissions(Data(chunks), packet)
  {
    ghost var data := Data(chunks);
    var current: seq<byte> := [];
    submitted := [];
    SendingStarts(data, packet);
    hide TransferSize, Submissions, Sending;
    assert chunks[0..] == chunks;
    for i := 0 to |chunks|
      invariant forall k :: 0 <= k < i ==> chunks[k].Ok?
      invariant Sending(data, submitted, current, Data(chunks[i..]), TransferSize(packet))
      invariant |current| < TransferSize(packet) && Completed(completion, |submitted|)
      invariant submitted <= Submissions(data, packet)
    {
      if chunks[i].Err? {
        return Err(Io), submitted;
      }
      assert chunks[i..][1..] == chunks[i + 1..];
      r, submitted, current := CopyChunk(
        chunks[i].value, packet, completion, submitted, current, data, Data(chunks[i + 1..]));
      if r.Err? {
        return;
      }
    }
    r, submitted := SubmitRemainder(packet, completion, submitted, current, data);
  }

  lemma {:induction false} SendingStarts(data: seq<byte>, packet: nat)
    requires packet > 0
    ensures TransferSize(packet) > 0 && Sending(data, [], [], data, TransferSize(packet))
  {
  }

  lemma {:induction false} TailRemainder(n: nat, tail: nat, packet: nat)
    requires packet > 0
    ensures (n * TransferSize(packet) + tail) % packet == tail % packet
  {
    var k := Max((TARGET_TRANSFER + packet - 1) / packet, 1);
    assert n * TransferSize(packet) == (n * k) * packet;
    MultipleHasNoRemainder(n * k, packet, tail);
  }

  // --- The receiving end ---

  /** One submitted buffer as USB packets; an empty buffer is one empty packet. */
  function Packets(buf: seq<byte>, packet: nat): seq<seq<byte>>
    requires packet > 0
  {
    if |buf| <= packet then [buf] else [buf[..packet]] + Packets(buf[packet..], packet)
  }

  function AllPackets(bufs: seq<seq<byte>>, packet: nat): seq<seq<byte>>
    requires packet > 0
  {
    if bufs == [] then [] else Packets(bufs[0], packet) + AllPackets(bufs[1..], packet)
  }

  /** Takes packets until one is short: the bytes, and the packets after; nothing if none is short. */
  function ReadTransfer(packets: seq<seq<byte>>, packet: nat): Option<(seq<byte>, seq<seq<byte>>)> {
    if packets == [] then None
    else if |packets[0]| < packet then Some((packets[0], packets[1..]))
    else
      var (data, rest) :- ReadTransfer(packets[1..], packet);
      Some((packets[0] + data, rest))
  }

  function Prepend(buf: seq<byte>, r: Option<(seq<byte>, seq<seq<byte>>)>): Option<(seq<byte>, seq<seq<byte>>)> {
    if r.None? then None else Some((buf + r.value.0, r.value.1))
  }

  /** A buffer of whole packets does not end the transfer; any other does. */
  lemma {:induction false} ReadBuffer(buf: seq<byte>, packet: nat, after: seq<seq<byte>>)
    requires packet > 0
    ensures ReadTransfer(Packets(buf, packet) + after, packet) ==
            if buf != [] && |buf| % packet == 0 then Prepend(buf, ReadTransfer(after, packet))
            else Some((buf, after))
    decreases |buf|
  {
    var ps := Packets(buf, packet) + after;
    if |buf| <= packet {
      assert ps[0] == buf && ps[1..] == after;
      assert |buf| % packet == 0 <==> |buf| == 0 || |buf| == packet by { SmallRemainder(|buf|, packet); }
    } else {
      var rest := buf[packet..];
      assert ps[0] == buf[..packet] && ps[1..] == Packets(rest, packet) + after;
      ReadBuffer(rest, packet, after);
      MultipleHasNoRemainder(1, packet, |rest|);
      assert buf == buf[..packet] + rest;
      assert forall d: seq<byte> :: buf[..packet] + (rest + d) == buf + d;
    }
  }

  lemma {:induction false} SmallRemainder(a: nat, m: nat)
    requires a <= m && m > 0
    ensures a % m == 0 <==> a == 0 || a == m
  {
  }

  /** The data buffers, closed by an empty one if the last was whole packets. */
  function Closed(data: seq<byte>, packet: nat, size: nat): seq<seq<byte>>
    requires packet > 0 && size > 0
  {
    Chop(data, size) + (if |data| % packet == 0 then [[]] else [])
  }

  lemma {:induction false} ClosedUnfolds(data: seq<byte>, packet: nat, size: nat)
    requires packet > 0 && size > 0 && size % packet == 0
    ensures data == [] ==> Closed(data, packet, size) == [[]] + []
    ensures 0 < |data| < size ==>
              Closed(data, packet, size) == [data] + (if |data| % packet == 0 then Closed([], packet, size) else [])
    ensures |data| >= size ==> Closed(data, packet, size) == [data[..size]] + Closed(data[size..], packet, size)
  {
    if |data| >= size {
      SameRemainder(|data| - size, size, packet);
    }
  }

  lemma {:induction false} PacketsOfFirst(buf: seq<byte>, bufs: seq<seq<byte>>, packet: nat, after: seq<seq<byte>>)
    requires packet > 0
    ensures AllPackets([buf] + bufs, packet) + after == Packets(buf, packet) + (AllPackets(bufs, packet) + after)
  {
  }

  /** Closed buffers read back as the data, and no further. */
  lemma {:induction false} ReadClosed(data: seq<byte>, packet: nat, size: nat, after: seq<seq<byte>>)
    requires packet > 0 && size > 0 && size % packet == 0
    ensures ReadTransfer(AllPackets(Closed(data, packet, size), packet) + after, packet) == Some((data, after))
    decreases |data|
  {
    ClosedUnfolds(data, packet, size);
    var first := if |data| >= size then data[..size] else data;
    var others := Closed(data, packet, size)[1..];
    hide Closed, Packets, ReadTransfer;
    assert Closed(data, packet, size) == [first] + others;
    PacketsOfFirst(first, others, packet, after);
    ReadBuffer(first, packet, AllPackets(others, packet) + after);
    if |data| >= size {
      ReadClosed(data[size..], packet, size, after);
      assert data == data[..size] + data[size..];
    } else if data != [] && |data| % packet == 0 {
      ReadClosed([], packet, size, after);
      assert data + [] == data;
    } else {
      assert AllPackets(others, packet) + after == after;
    }
  }

  lemma {:induction false} SameRemainder(a: nat, b: nat, m: nat)
    requires m > 0 && b % m == 0
    ensures (a + b) % m == a % m
  {
    assert b == b / m * m;
    MultipleHasNoRemainder(b / m, m, a);
  }

  /**
   The receiver gets exactly the bytes sent, and the packets of the next transfer stay untouched:
   every non-empty send ends in a short packet. An empty send puts nothing on the wire.
   */
  lemma {:induction false} ReceiverGetsData(data: seq<byte>, packet: nat, after: seq<seq<byte>>)
    requires packet > 0
    ensures data != [] ==>
              ReadTransfer(AllPackets(Submissions(data, packet), packet) + after, packet) == Some((data, after))
    ensures data == [] ==> Submissions(data, packet) == []
  {
    TransferIsWholePackets(packet);
    ReadClosed(data, packet, TransferSize(packet), after);
  }

  lemma {:induction false} ChopShape(data: seq<byte>, size: nat)
    requires size > 0
    ensures Flatten(Chop(data, size)) == data
    ensures forall i :: 0 <= i < |Chop(data, size)| ==>
              0 < |Chop(data, size)[i]| <= size && (i + 1 < |Chop(data, size)| ==> |Chop(data, size)[i]| == size)
    decreases |data|
  {
    if |data| >= size {
      ChopShape(data[size..], size);
      assert data == data[..size] + data[size..];
    }
  }

  /** What is submitted is the data in full transfers, with a zero-length packet exactly when due. */
  lemma {:induction false} SubmissionsShape(data: seq<byte>, packet: nat)
    requires packet > 0
    ensures var bufs, size := Submissions(data, packet), TransferSize(packet);
            var dataBufs := if [] in bufs then |bufs| - 1 else |bufs|;
            && Flatten(bufs) == data
            && ([] in bufs <==> data != [] && |data| % packet == 0)
            && (forall i :: 0 <= i < dataBufs ==> 0 < |bufs[i]| <= size)
            && (forall i :: 0 <= i < dataBufs - 1 ==> |bufs[i]| == size)
  {
    var size := TransferSize(packet);
    TransferIsWholePackets(packet);
    hide TransferSize;
    ChopShape(data, size);
    hide Chop;
    var c := Chop(data, size);
    assert [] !in c;
    if data != [] && |data| % packet == 0 {
      FlattenAppend(c, []);
      assert Submissions(data, packet) == c + [[]];
      assert (c + [[]])[|c|] == [];
    } else {
      assert Submissions(data, packet) == c;
    }
  }
}
