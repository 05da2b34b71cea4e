/**
 The streamed download of crates/mtp-rs/src/mtp/stream.rs over the read primitives of
 crates/mtp-rs/src/mtp/backend/usb.rs.

 The device is an oracle: `answer(i, c)` is its reply to command `c` sent as the i-th, either a
 refusal or a finite body of chunks that may be cut short, padded past the request, or end in an
 error. Calls are sequential; a body's waits carry the nanoseconds they took.
 */
module Download {
  import opened Common
  import opened Pacing
  import opened PartialRead

  datatype ByteRange = Full | From(offset: u64) | Range(offset: u64, len: u64)

  function RangeStart(r: ByteRange): u64 { if r.Full? then 0 else r.offset }

  /** Where a range of an object ends; the sum saturates before it is cut to the object. */
  function RangeEnd(r: ByteRange, size: u64): u64 {
    if r.Range? then Min(Min(r.offset + r.len, U64_MAX), size) else size
  }

  datatype Item = Chunk(bytes: seq<byte>, elapsed: nat) | Failed(error: PtpError, elapsed: nat)

  /** One read: its items, then its end, with the waits for the read to open and to close. */
  datatype Body = Body(opening: nat, items: seq<Item>, closing: nat)

  /** The bytes a body hands out before it ends or fails. */
  function BytesOf(items: seq<Item>): seq<byte> {
    if items == [] || items[0].Failed? then [] else items[0].bytes + BytesOf(items[1..])
  }

  /** The time the items took to arrive. */
  function Waits(items: seq<Item>): nat {
    if items == [] then 0 else items[0].elapsed + Waits(items[1..])
  }

  /** It is each item's own time, added up. */
  lemma {:induction false} WaitsAdd(a: seq<Item>, b: seq<Item>)
    ensures Waits(a + b) == Waits(a) + Waits(b)
    ensures |a| == 1 ==> Waits(a) == a[0].elapsed
  {
    if a == [] {
      assert a + b == b;
    } else {
      assert (a + b)[1..] == a[1..] + b;
      WaitsAdd(a[1..], b);
    }
  }

  /** The whole time of a read, from asking for it to its end. */
  function TotalTime(b: Body): nat { b.opening + Waits(b.items) + b.closing }

  predicate AllChunks(items: seq<Item>) { forall item :: item in items ==> item.Chunk? }

  predicate NoneEmpty(items: seq<Item>) { forall item :: item in items && item.Chunk? ==> item.bytes != [] }

  /** A body of data only, in chunks that each hold some. */
  predicate AllData(items: seq<Item>) { AllChunks(items) && NoneEmpty(items) }

  /** What `data` says within the request is what the object holds there. */
  ghost predicate TrueBytes(content: seq<byte>, c: Command, data: seq<byte>) {
    forall k :: 0 <= k < |data| && k < CommandLimit(c, |content|) ==>
                  CommandOffset(c) + k < |content| && data[k] == content[CommandOffset(c) + k]
  }

  /** The backend's read primitives for one object, and the commands they have sent. */
  class UsbBackend {
    const has64: bool
    const has32: bool
    ghost const content: seq<byte>
    const answer: (nat, Command) -> Result<Body, PtpError>
    var sent: seq<Command>

    constructor (has64: bool, has32: bool, ghost content: seq<byte>, answer: (nat, Command) -> Result<Body, PtpError>)
      ensures this.has64 == has64 && this.has32 == has32 && this.content == content && this.answer == answer
      ensures sent == []
    {
      this.has64, this.has32, this.content, this.answer, sent := has64, has32, content, answer, [];
    }

    predicate CanReadPartiallyAt(offset: u64) { PlanPartialRead(has64, has32, offset).Ok? }

    /** Every read, short, exact or overrunning, is true to the object as far as it was asked. */
    ghost predicate SendsTrueBytes() {
      forall i: nat, c: Command :: answer(i, c).Ok? ==> TrueBytes(content, c, BytesOf(answer(i, c).value.items))
    }

    ghost predicate NeverOverruns() {
      forall i: nat, c: Command ::
        answer(i, c).Ok? ==> |BytesOf(answer(i, c).value.items)| <= CommandLimit(c, |content|)
    }

    /** Every read succeeds, with some data where the object has any and no more than was asked. */
    ghost predicate Serves() {
      forall i: nat, c: Command :: ServedWell(c, answer(i, c))
    }

    ghost predicate ServedWell(c: Command, a: Result<Body, PtpError>) {
      && a.Ok? && AllData(a.value.items) && |BytesOf(a.value.items)| <= CommandLimit(c, |content|)
      && (CommandOffset(c) < |content| && CommandLimit(c, |content|) > 0 ==> BytesOf(a.value.items) != [])
    }

    /** Reads of an object of `size` bytes are answered wherever they start from `start` up to `end`. */
    ghost predicate CanServe(start: nat, end: u64, size: u64) {
      |content| == size && Serves() && (start < end ==> CanReadPartiallyAt(end - 1))
    }

    ghost predicate NoEmptyChunks() {
      forall i: nat, c: Command :: answer(i, c).Ok? ==> NoneEmpty(answer(i, c).value.items)
    }

    /** The object is the `size` bytes it is said to be, and every read is true to it as far as it was asked. */
    ghost predicate TrueTo(size: u64) { |content| == size && SendsTrueBytes() }

    /** No read of an object of `size` bytes brings more than was asked. */
    ghost predicate KeepsToRequests(size: u64) { |content| == size && NeverOverruns() }

    /** A whole-object read is never cut short. */
    ghost predicate SendsWholeObject() {
      forall i: nat, c: Command ::
        c.GetObject? && answer(i, c).Ok? ==> |BytesOf(answer(i, c).value.items)| == |content|
    }

    /** What each assumption about the device says of one answer. */
    lemma {:induction false} OneAnswer(i: nat, c: Command)
      requires answer(i, c).Ok?
      ensures var items := answer(i, c).value.items;
              && (SendsTrueBytes() ==> TrueBytes(content, c, BytesOf(items)))
              && (NeverOverruns() ==> |BytesOf(items)| <= CommandLimit(c, |content|))
              && (Serves() ==> ServedWell(c, answer(i, c)))
              && (SendsWholeObject() && c.GetObject? ==> |BytesOf(items)| == |content|)
              && (NoEmptyChunks() ==> NoneEmpty(items))
    {
    }

    method Send(c: Command) returns (r: Result<Body, PtpError>)
      modifies this`sent
      ensures sent == old(sent) + [c] && r == answer(|old(sent)|, c)
    {
      r := answer(|sent|, c);
      sent := sent + [c];
    }

    /** A read of up to `len` bytes at `offset`, refused locally where no operation reaches it. */
    method DownloadWindow(offset: u64, len: u32) returns (r: Result<Body, PtpError>)
      modifies this`sent
      ensures var c := PartialCommand(has64, has32, offset, len);
              if c.Err? then r == Err(c.error) && sent == old(sent)
              else sent == old(sent) + [c.value] && r == answer(|old(sent)|, c.value)
    {
      var c :- PartialCommand(has64, has32, offset, len);
      r := Send(c);
    }

    /** A held-open read of `range`; one partial read covers at most 4 GiB - 1 bytes. */
    method Download(range: ByteRange, size: u64) returns (r: Result<Body, PtpError>)
      modifies this`sent
      ensures var c := DownloadCommand(has64, has32, range, size);
              if c.Err? then r == Err(c.error) && sent == old(sent)
              else sent == old(sent) + [c.value] && r == answer(|old(sent)|, c.value)
    {
      if RangeStart(range) > size {
        return Err(InvalidData);
      }
      var c :- DownloadCommand(has64, has32, range, size);
      r := Send(c);
    }
  }

  function DownloadCommand(has64: bool, has32: bool, range: ByteRange, size: u64): Result<Command, PtpError> {
    var offset := RangeStart(range);
    if offset > size then Err(InvalidData)
    else if range.Full? then Ok(GetObject(if size > U32_MAX then Some(size) else None))
    else
      var remaining: int := size - offset;
      var want := if range.Range? then Min(remaining, range.len) else remaining;
      PartialCommand(has64, has32, offset, if want > U32_MAX then U32_MAX else want)
  }

  /**
   A held-open command starts where its range does and asks for no more than the range. A whole object
   is told its size exactly when the 32-bit length field can't.
   */
  lemma {:induction false} HeldOpenCommand(has64: bool, has32: bool, range: ByteRange, size: u64)
    requires RangeStart(range) <= size
    ensures var c := DownloadCommand(has64, has32, range, size);
            c.Ok? ==>
              && CommandOffset(c.value) == RangeStart(range)
              && CommandLimit(c.value, size) <= RangeEnd(range, size) - RangeStart(range)
              && (RangeStart(range) < RangeEnd(range, size) ==> CommandLimit(c.value, size) > 0)
              && (range.Full? ==> c.value == GetObject(if size < 0x1_0000_0000 then None else Some(size)))
  {
    hide PartialCommand;
    if !range.Full? {
      var remaining: int := size - range.offset;
      var want := if range.Range? then Min(remaining, range.len) else remaining;
      WireOffsetIsExact(has64, has32, range.offset, Min(want, U32_MAX));
    }
  }

  lemma {:induction false} ChunkIsAnswered(answered: seq<byte>, items: seq<Item>, received: nat)
    requires received <= |answered| && answered[received..] == BytesOf(items) && items != [] && items[0].Chunk?
    ensures var next := received + |items[0].bytes|;
            && next <= |answered| && answered[received..next] == items[0].bytes
            && answered[next..] == BytesOf(items[1..])
  {
  }

  /** Within the request, the next chunk of a true answer extends what came before it. */
  lemma {:induction false} ChunkIsTrue(
    content: seq<byte>, c: Command, answered: seq<byte>, received: nat, chunk: seq<byte>, start: nat, before: seq<byte>)
    requires TrueBytes(content, c, answered) && received + |chunk| <= CommandLimit(c, |content|)
    requires received + |chunk| <= |answered| && answered[received..received + |chunk|] == chunk
    requires start + |before| == CommandOffset(c) + received <= |content| && before == content[start..start + |before|]
    ensures start + |before + chunk| <= |content| && before + chunk == content[start..start + |before + chunk|]
  {
    var at := start + |before|;
    forall k | 0 <= k < |chunk| ensures at + k < |content| && chunk[k] == content[at + k] {
      assert chunk[k] == answered[received + k];
    }
    if chunk != [] {
      var last := chunk[|chunk| - 1];
    }
  }

  lemma {:induction false} DataHasBytes(items: seq<Item>)
    requires AllData(items)
    ensures items != [] ==> items[0].Chunk? && BytesOf(items) != [] && AllData(items[1..])
  {
    if items != [] {
      assert items[0] in items;
    }
  }

  lemma {:induction false} TailIsNoneEmpty(items: seq<Item>)
    requires NoneEmpty(items) && items != [] && items[0].Chunk?
    ensures items[0].bytes != [] && NoneEmpty(items[1..])
  {
    assert items[0] in items;
  }

  predicate AtMostOneSent(before: seq<Command>, after: seq<Command>) {
    before <= after && |after| <= |before| + 1
  }

  lemma {:induction false} NothingSent(sent: seq<Command>)
    ensures AtMostOneSent(sent, sent)
  {
  }

  /** A window at `at`, of the size pacer `p` picks: inside the range, at least one byte, at a readable offset. */
  ghost predicate IsWindow(backend: UsbBackend, start: nat, end: u64, c: Command, at: nat, p: Pacer) {
    && !c.GetObject? && CommandOffset(c) == at && start <= at < end && c.max == p.NextWindow(end - at)
    && 1 <= c.max <= Min(end - at, U32_MAX) && backend.CanReadPartiallyAt(at)
  }

  ghost predicate IsSomeWindow(backend: UsbBackend, start: nat, end: u64, pacing: DownloadPacing, c: Command) {
    exists p: Pacer :: p.pacing == pacing && IsWindow(backend, start, end, c, CommandOffset(c), p)
  }

  /** From the n-th on, only windows were sent. */
  ghost predicate OnlyWindows(
    backend: UsbBackend, start: nat, end: u64, pacing: DownloadPacing, sent: seq<Command>, n: nat) {
    forall k :: n <= k < |sent| ==> IsSomeWindow(backend, start, end, pacing, sent[k])
  }

  lemma {:induction false} OneMoreWindow(
    backend: UsbBackend, start: nat, end: u64, before: seq<Command>, after: seq<Command>, n: nat, at: nat, p: Pacer)
    requires OnlyWindows(backend, start, end, p.pacing, before, n) && AtMostOneSent(before, after)
    requires |after| > |before| ==> IsWindow(backend, start, end, after[|before|], at, p)
    ensures OnlyWindows(backend, start, end, p.pacing, after, n)
  {
    hide IsWindow;
    forall k | n <= k < |after| ensures IsSomeWindow(backend, start, end, p.pacing, after[k]) {
      if k == |before| {
        WindowIsAtItsOffset(backend, start, end, after[k], at, p);
      } else {
        assert after[k] == before[k];
      }
    }
  }

  lemma {:induction false} WindowIsAtItsOffset(backend: UsbBackend, start: nat, end: u64, c: Command, at: nat, p: Pacer)
    requires IsWindow(backend, start, end, c, at, p)
    ensures IsSomeWindow(backend, start, end, p.pacing, c)
  {
    assert IsWindow(backend, start, end, c, CommandOffset(c), p);
  }

  datatype ActiveRead = ActiveRead(body: Body, heldOpen: bool, requested: nat, received: nat, deviceTime: nat)

  /** The range a held-open read of `[offset, end)` asks the backend for. */
  function RestOf(offset: u64, end: u64, size: u64): ByteRange
    requires offset <= end
  {
    if offset == 0 && end == size then Full else Range(offset, end - offset)
  }

  /** The read in flight with its next chunk accounted for. */
  function AfterChunk(read: ActiveRead): ActiveRead
    requires read.body.items != [] && read.body.items[0].Chunk?
  {
    read.(
      body := read.body.(items := read.body.items[1..]),
      received := read.received + |read.body.items[0].bytes|,
      deviceTime := read.deviceTime + read.body.items[0].elapsed)
  }

  /** A held-open read is in flight whose chunks bring at least the rest of the range. */
  ghost predicate Brings(read: Option<ActiveRead>, offset: nat, end: nat) {
    && read.Some? && read.value.heldOpen && AllChunks(read.value.body.items)
    && offset + |BytesOf(read.value.body.items)| >= end
  }

  /** Of the `whole` such a read brings, `data` has been handed on. */
  ghost predicate Carries(read: Option<ActiveRead>, offset: nat, end: nat, data: seq<byte>, whole: seq<byte>) {
    Brings(read, offset, end) && data + BytesOf(read.value.body.items) == whole
  }

  lemma {:induction false} Carrying(read: Option<ActiveRead>, offset: nat, end: nat)
    ensures Brings(read, offset, end) ==> Carries(read, offset, end, [], BytesOf(read.value.body.items))
    ensures Brings(read, offset, end) ==> read.Some?
  {
  }

  lemma {:induction false} CarriesOn(read: Option<ActiveRead>, offset: nat, end: nat, data: seq<byte>, whole: seq<byte>)
    requires Carries(read, offset, end, data, whole)
    ensures read.Some? && read.value.heldOpen
    ensures read.value.body.items == [] ==> offset >= end && data == whole
    ensures read.value.body.items != [] ==>
              var item := read.value.body.items[0];
              && item.Chunk?
              && Carries(Some(AfterChunk(read.value)), offset + |item.bytes|, end, data + item.bytes, whole)
  {
    var items := read.value.body.items;
    if items != [] {
      assert items[0] in items;
      assert data + (items[0].bytes + BytesOf(items[1..])) == data + items[0].bytes + BytesOf(items[1..]);
    }
  }

  lemma {:induction false} TailOfSlice(content: seq<byte>, start: nat, mid: nat, end: nat, before: seq<byte>, data: seq<byte>)
    requires start <= mid <= end <= |content| && start + |before| == mid && before + data == content[start..end]
    ensures data == content[mid..end]
  {
    assert data == (before + data)[|before|..];
  }

  lemma {:induction false} NoWindowsYet(
    backend: UsbBackend, start: nat, end: u64, pacing: DownloadPacing, sent: seq<Command>)
    ensures OnlyWindows(backend, start, end, pacing, sent, |sent|)
  {
  }

  class FileDownload {
    const backend: UsbBackend
    const size: u64
    const start: u64
    const end: u64
    var offset: nat
    var pacer: Pacer
    var current: Option<ActiveRead>
    var started: bool
    var done: bool

    /** Bytes handed to the consumer, in how many chunks, and whether an error has been. */
    ghost var delivered: seq<byte>
    ghost var chunks: nat
    ghost var failed: bool
    /** The command of the last read, the body it was answered with, and every byte of that. */
    ghost var command: Command
    ghost var taken: Body
    ghost var answered: seq<byte>

    constructor (backend: UsbBackend, size: u64, start: u64, end: u64, pacing: DownloadPacing)
      requires start <= end <= size
      ensures this.backend == backend && this.size == size && this.start == start && this.end == end
      ensures offset == start && pacer == Pacer(pacing, None) && current == None && !started && !done
      ensures delivered == [] && chunks == 0 && !failed
    {
      this.backend, this.size, this.start, this.end := backend, size, start, end;
      offset, pacer, current, started, done := start, Pacer(pacing, None), None, false, false;
      delivered, chunks, failed, command, taken, answered := [], 0, false, GetObject(None), Body(0, [], 0), [];
    }

    // The invariants are predicates of values, with the fields as arguments, so that each step's
    // effect on them is a lemma about values.

    /** No read of this download is ever held open. */
    ghost predicate Windowed()
      reads this
    {
      !pacer.pacing.HeldOpen?
    }

    /** What is sent past a request can be told apart, or is never sent. */
    ghost predicate Bounded()
      reads this
    {
      BoundedWith(pacer.pacing)
    }

    ghost predicate BoundedWith(pacing: DownloadPacing) {
      !pacing.HeldOpen? || backend.KeepsToRequests(size)
    }

    /** The device is true to the object, and what it sends past a request can be told apart. */
    ghost predicate Trusted()
      reads this
    {
      TrustedWith(pacer.pacing)
    }

    ghost predicate TrustedWith(pacing: DownloadPacing) { backend.TrueTo(size) && BoundedWith(pacing) }

    /** The whole object is wanted in one read, and the device gives it in one. */
    ghost predicate InOneRead(pacing: DownloadPacing) {
      start == 0 && end == size && pacing.HeldOpen? && backend.SendsWholeObject()
    }

    /** The device answers every read, and its operations reach every part of the range a read may start at. */
    ghost predicate Served()
      reads this
    {
      ServedWith(pacer.pacing)
    }

    ghost predicate ServedWith(pacing: DownloadPacing) {
      backend.CanServe(start, end, size) || (|backend.content| == size && backend.Serves() && InOneRead(pacing))
    }

    /**
     A whole object is only read in windows that reach its last byte. The bytes handed out so far are
     inside the range, the object's own, and no fewer than the chunks they came in.
     */
    ghost predicate HandedOut(pacing: DownloadPacing, offset: nat, delivered: seq<byte>, chunks: nat) {
      && start <= end <= size && start + |delivered| <= offset
      && (start == 0 && 0 < end == size && !pacing.HeldOpen? ==> backend.CanReadPartiallyAt(end - 1))
      && (BoundedWith(pacing) ==> start + |delivered| <= end)
      && (TrustedWith(pacing) ==> delivered == backend.content[start..start + |delivered|])
      && (backend.NoEmptyChunks() ==> chunks <= |delivered|)
    }

    /** The read in flight: what it asked for, what is left of it, and how far it can be trusted. */
    ghost predicate InFlight(
      pacing: DownloadPacing, offset: nat, read: ActiveRead, command: Command, answered: seq<byte>) {
      var at := offset - read.received;
      && start <= at < end && CommandOffset(command) == at
      && read.received <= |answered| && answered[read.received..] == BytesOf(read.body.items)
      && read.heldOpen == pacing.HeldOpen?
      && (if read.heldOpen then CommandLimit(command, size) <= read.requested == end - at
          else read.received < read.requested == CommandLimit(command, size) <= end - at)
      && (backend.KeepsToRequests(size) ==> |answered| <= CommandLimit(command, size))
      && (backend.TrueTo(size) ==> TrueBytes(backend.content, command, answered))
      && (backend.NoEmptyChunks() ==> NoneEmpty(read.body.items))
    }

    /** The time counted so far and the waits still to come are those of the body taken up. */
    ghost predicate Timed(read: ActiveRead, taken: Body, answered: seq<byte>) {
      && answered == BytesOf(taken.items) && read.body.closing == taken.closing
      && read.deviceTime + Waits(read.body.items) == taken.opening + Waits(taken.items)
    }

    /** Against a device that serves: no error, a read in flight that will bring data, and one read if one is enough. */
    ghost predicate Smooth(
      pacing: DownloadPacing, offset: nat, current: Option<ActiveRead>, command: Command, answered: seq<byte>,
      failed: bool, done: bool) {
      ServedWith(pacing) ==>
        && !failed && offset <= end
        && (current.Some? ==> AllData(current.value.body.items) && 0 < |answered| <= CommandLimit(command, size))
        && (InOneRead(pacing) ==>
              if current.Some? then offset == current.value.received && |answered| == size
              else done || offset == 0 || offset == end)
    }

    /** What every step keeps, for every device. */
    ghost predicate Valid()
      reads this
    {
      && HandedOut(pacer.pacing, offset, delivered, chunks)
      && (current.Some? ==> started && InFlight(pacer.pacing, offset, current.value, command, answered))
      && (current.Some? ==> Timed(current.value, taken, answered))
      && Smooth(pacer.pacing, offset, current, command, answered, failed, done)
      && (done ==> current.None?) && (failed ==> done) && (!failed ==> offset == start + |delivered|)
    }

    lemma {:induction false} Bounds()
      requires Valid()
      ensures start <= end <= size && start <= offset && |delivered| <= offset - start
      ensures !failed ==> offset == start + |delivered|
      ensures current.Some? ==> offset - current.value.received < end
      ensures Bounded() ==> start + |delivered| <= end
      ensures Served() ==> !failed && offset <= end
    {
    }

    // A run's distance to its end, compared lexicographically: bytes left, whether the read in
    // flight has yet to yield a byte, and the items left in it.
    ghost function BytesLeft(): nat
      reads this
    {
      if offset < end then end - offset else 0
    }

    ghost function ReadsLeft(): nat
      reads this
    {
      if current.Some? && current.value.received == 0 then 0 else 1
    }

    ghost function ItemsLeft(): nat
      reads this
    {
      if current.Some? then |current.value.body.items| else 0
    }

    twostate predicate Closer()
      reads this
    {
      || BytesLeft() < old(BytesLeft())
      || (BytesLeft() == old(BytesLeft()) && ReadsLeft() < old(ReadsLeft()))
      || (BytesLeft() == old(BytesLeft()) && ReadsLeft() == old(ReadsLeft()) && ItemsLeft() < old(ItemsLeft()))
    }

    /** Ends the download on an error, dropping any read in flight. */
    method Fail()
      requires HandedOut(pacer.pacing, offset, delivered, chunks) && !Served()
      modifies this`current, this`done, this`failed
      ensures Valid() && done && failed
    {
      current := None;
      done := true;
      failed := true;
    }

    /** Takes up a read the backend has opened for command `c`. */
    method Attach(body: Body, heldOpen: bool, requested: nat, ghost c: Command, ghost i: nat)
      requires Valid() && current.None? && !done && offset < end
      requires backend.answer(i, c) == Ok(body) && CommandOffset(c) == offset
      requires heldOpen == !Windowed()
      requires if heldOpen then 0 < CommandLimit(c, size) <= requested == end - offset
               else 0 < requested == CommandLimit(c, size) <= end - offset
      requires InOneRead(pacer.pacing) && offset == 0 ==> c.GetObject?
      modifies this`current, this`started, this`command, this`taken, this`answered
      ensures Valid() && current == Some(ActiveRead(body, heldOpen, requested, 0, body.opening))
      ensures command == c && taken == body
    {
      hide BytesOf, TrueBytes, AllData, NoneEmpty, UsbBackend.SendsTrueBytes, UsbBackend.NeverOverruns,
        UsbBackend.Serves, UsbBackend.NoEmptyChunks, UsbBackend.SendsWholeObject, CommandLimit, CommandOffset;
      backend.OneAnswer(i, c);
      current := Some(ActiveRead(body, heldOpen, requested, 0, body.opening));
      started := true;
      command := c;
      taken := body;
      answered := BytesOf(body.items);
    }

    /** The last read is what the device answered to the one command sent after `before`. */
    ghost predicate IsAnswered(before: seq<Command>)
      reads this, backend
    {
      backend.sent == before + [command] && backend.answer(|before|, command) == Ok(taken)
    }

    /** Opens a window at `offset`. */
    method OpenWindow() returns (r: Result<(), PtpError>)
      requires Valid() && current.None? && !done && offset < end
      requires Windowed() && backend.CanReadPartiallyAt(offset)
      modifies this`current, this`started, this`command, this`taken, this`answered, backend`sent
      ensures Valid()
      ensures if r.Ok? then current.Some? && current.value.received == 0 else current.None? && !Served()
      ensures r.Ok? ==> IsAnswered(old(backend.sent))
      ensures AtMostOneSent(old(backend.sent), backend.sent)
      ensures |backend.sent| > |old(backend.sent)| ==>
                IsWindow(backend, start, end, backend.sent[|old(backend.sent)|], offset, pacer)
    {
      var len := pacer.NextWindow(end - offset);
      WindowBounds(pacer, end - offset);
      WireOffsetIsExact(backend.has64, backend.has32, offset, len);
      ghost var c, i := PartialCommand(backend.has64, backend.has32, offset, len), |backend.sent|;
      hide Valid, PartialCommand, CommandOffset;
      var body :- backend.DownloadWindow(offset, len);
      Attach(body, false, len, c.value, i);
      r := Ok(());
    }

    /** What a held-open read of the rest of the range is asked for with. */
    ghost function HeldCommand(): Result<Command, PtpError>
      reads this
      requires offset <= end
    {
      DownloadCommand(backend.has64, backend.has32, RestOf(offset, end, size), size)
    }

    /** Where windows are wanted and can't be read, neither can a held-open read be asked for. */
    lemma {:induction false} UnreadableIsRefused()
      requires Valid() && offset < end && Windowed() && !backend.CanReadPartiallyAt(offset)
      ensures HeldCommand().Err? && !Served()
    {
      EarlierOffsetsReadable(backend.has64, backend.has32, end - 1, offset);
    }

    /** Opens a held-open transfer for the rest of the range; in windowed mode that is refused unsent. */
    method OpenHeldOpen() returns (r: Result<(), PtpError>)
      requires Valid() && current.None? && !done && offset < end
      requires Windowed() ==> !backend.CanReadPartiallyAt(offset)
      modifies this`current, this`started, this`command, this`taken, this`answered, backend`sent
      ensures Valid()
      ensures r.Err? ==> current.None? && !Served()
      ensures r.Ok? ==> IsAnswered(old(backend.sent))
      ensures AtMostOneSent(old(backend.sent), backend.sent)
      ensures Windowed() ==> r.Err? && backend.sent == old(backend.sent)
      ensures var c := old(HeldCommand());
              if c.Err? then r == Err(c.error)
              else
                var body := backend.answer(|old(backend.sent)|, c.value);
                if body.Err? then r == Err(body.error)
                else r.Ok? && current == Some(ActiveRead(body.value, true, end - offset, 0, body.value.opening))
    {
      hide Valid, HandedOut, InFlight, Smooth, ServedWith, InOneRead, DownloadCommand, CommandOffset, CommandLimit;
      var range := RestOf(offset, end, size);
      ghost var c, i := DownloadCommand(backend.has64, backend.has32, range, size), |backend.sent|;
      RestIsTheRest();
      HeldOpenCommand(backend.has64, backend.has32, range, size);
      if Windowed() {
        UnreadableIsRefused();
      }
      HeldCommandIsServed();
      var body :- backend.Download(range, size);
      Attach(body, true, end - offset, c.value, i);
      r := Ok(());
    }

    lemma {:induction false} RestIsTheRest()
      requires Valid() && offset <= end
      ensures var range := RestOf(offset, end, size);
              RangeStart(range) == offset && RangeEnd(range, size) == end && offset <= size
    {
    }

    /** A device that serves can be asked, and answers. */
    lemma {:induction false} HeldCommandIsServed()
      requires Valid() && current.None? && !done && offset < end
      ensures Served() ==> HeldCommand().Ok? && forall i: nat :: backend.answer(i, HeldCommand().value).Ok?
      ensures InOneRead(pacer.pacing) && offset == 0 && HeldCommand().Ok? ==> HeldCommand().value.GetObject?
    {
      EarlierOffsetsReadable(backend.has64, backend.has32, end - 1, offset);
      if Served() {
        forall i: nat ensures backend.answer(i, HeldCommand().value).Ok? {
          assert backend.ServedWell(HeldCommand().value, backend.answer(i, HeldCommand().value));
        }
      }
    }

    /** Starts the next read: a window, or a held-open transfer for the rest of the range. */
    method StartNextRead() returns (r: Result<(), PtpError>)
      requires Valid() && current.None? && !done && offset < end
      modifies this`current, this`started, this`command, this`taken, this`answered, backend`sent
      ensures Valid()
      ensures if r.Ok? then current.Some? && current.value.received == 0 else current.None? && !Served()
      ensures r.Ok? ==> IsAnswered(old(backend.sent))
      ensures AtMostOneSent(old(backend.sent), backend.sent)
      ensures Windowed() && |backend.sent| > |old(backend.sent)| ==>
                IsWindow(backend, start, end, backend.sent[|old(backend.sent)|], offset, pacer)
      ensures Windowed() && !backend.CanReadPartiallyAt(offset) ==> r.Err? && backend.sent == old(backend.sent)
      ensures var c := old(HeldCommand());
              !Windowed() ==>
                if c.Err? then r == Err(c.error)
                else
                  var body := backend.answer(|old(backend.sent)|, c.value);
                  if body.Err? then r == Err(body.error)
                  else r.Ok? && current == Some(ActiveRead(body.value, true, end - offset, 0, body.value.opening))
    {
      hide Valid, IsWindow, AtMostOneSent;
      if !pacer.pacing.HeldOpen? && backend.CanReadPartiallyAt(offset) {
        r := OpenWindow();
      } else {
        r := OpenHeldOpen();
      }
    }

    /** The pacer once the read in flight has ended: it learns a window's bytes and time, and nothing of a held-open read. */
    ghost function Rested(): Pacer
      reads this
    {
      if current.Some? && !current.value.heldOpen && current.value.body.items == []
      then pacer.Record(|BytesOf(taken.items)|, TotalTime(taken))
      else pacer
    }

    /** The pacer learns from a finished window, and the read is given up. */
    method CloseRead()
      requires Valid() && current.Some? && !done && current.value.body.items == []
      modifies this`current, this`pacer
      ensures Valid() && current.None?
      ensures pacer == if old(current.value.heldOpen) then old(pacer)
                       else old(pacer).Record(|BytesOf(taken.items)|, TotalTime(taken))
    {
      var read := current.value;
      if !read.heldOpen {
        pacer := pacer.Record(read.received, read.deviceTime + read.body.closing);
      }
      current := None;
    }

    ghost predicate ChunkIsNext()
      reads this
    {
      !done && current.Some? && current.value.body.items != [] && current.value.body.items[0].Chunk?
    }

    /** A chunk that doesn't overrun its window may be handed out. */
    lemma {:induction false} ChunkIsHandedOut(
      pacing: DownloadPacing, offset: nat, read: ActiveRead, command: Command, answered: seq<byte>, delivered: seq<byte>,
      chunks: nat)
      requires HandedOut(pacing, offset, delivered, chunks) && offset == start + |delivered|
      requires InFlight(pacing, offset, read, command, answered) && read.body.items != [] && read.body.items[0].Chunk?
      requires read.heldOpen || AfterChunk(read).received <= read.requested
      ensures var chunk := read.body.items[0].bytes;
              HandedOut(pacing, offset + |chunk|, delivered + chunk, chunks + 1)
    {
      hide BytesOf, NoneEmpty, TrueBytes, UsbBackend.NoEmptyChunks, UsbBackend.NeverOverruns, UsbBackend.SendsTrueBytes;
      var chunk := read.body.items[0].bytes;
      ChunkIsAnswered(answered, read.body.items, read.received);
      if TrustedWith(pacing) {
        ChunkIsTrue(backend.content, command, answered, read.received, chunk, start, delivered);
      }
      if backend.NoEmptyChunks() {
        TailIsNoneEmpty(read.body.items);
      }
    }

    /** A chunk that leaves its read in flight leaves it in order. */
    lemma {:induction false} ReadAdvances(
      pacing: DownloadPacing, offset: nat, read: ActiveRead, command: Command, answered: seq<byte>)
      requires InFlight(pacing, offset, read, command, answered) && read.body.items != [] && read.body.items[0].Chunk?
      requires read.heldOpen || AfterChunk(read).received < read.requested
      ensures InFlight(pacing, offset + |read.body.items[0].bytes|, AfterChunk(read), command, answered)
    {
      hide BytesOf, NoneEmpty, TrueBytes, CommandLimit, CommandOffset, UsbBackend.NoEmptyChunks,
        UsbBackend.KeepsToRequests, UsbBackend.TrueTo;
      ChunkIsAnswered(answered, read.body.items, read.received);
      if backend.NoEmptyChunks() {
        TailIsNoneEmpty(read.body.items);
      }
    }

    /** A read in flight from a device that serves brings what was asked at most, and a full window ends there. */
    lemma {:induction false} ServedReadFits(
      pacing: DownloadPacing, offset: nat, read: ActiveRead, command: Command, answered: seq<byte>)
      requires ServedWith(pacing) && Smooth(pacing, offset, Some(read), command, answered, false, false)
      requires InFlight(pacing, offset, read, command, answered) && read.body.items != [] && read.body.items[0].Chunk?
      ensures var after, next := AfterChunk(read), offset + |read.body.items[0].bytes|;
              && after.received <= read.requested && (after.received == read.requested ==> after.body.items == [])
              && Smooth(pacing, next, Some(after), command, answered, false, false)
              && (!read.heldOpen ==> Smooth(pacing, next, None, command, answered, false, false))
    {
      hide AllData, TrueBytes, UsbBackend.Serves, UsbBackend.SendsWholeObject, UsbBackend.KeepsToRequests, UsbBackend.TrueTo;
      ChunkIsAnswered(answered, read.body.items, read.received);
      DataHasBytes(read.body.items);
      DataHasBytes(AfterChunk(read).body.items);
    }

    /** A chunk's own wait moves from the waits to come to the time counted. */
    lemma {:induction false} TimeAdvances(read: ActiveRead, taken: Body, answered: seq<byte>)
      requires Timed(read, taken, answered) && read.body.items != [] && read.body.items[0].Chunk?
      ensures Timed(AfterChunk(read), taken, answered)
    {
    }

    lemma {:induction false} LastChunk()
      requires Valid() && ChunkIsNext()
      ensures var after := AfterChunk(current.value);
              after.body.items == [] ==>
                after.received == |BytesOf(taken.items)| && after.deviceTime + after.body.closing == TotalTime(taken)
    {
      hide HandedOut, Smooth;
      ChunkIsAnswered(answered, current.value.body.items, current.value.received);
      TimeAdvances(current.value, taken, answered);
    }

    /** What the next chunk comes to: an overrun, the end of a window, or more of the read. */
    lemma {:induction false} NextChunkFits()
      requires Valid() && ChunkIsNext()
      ensures var read, after := current.value, AfterChunk(current.value);
              var chunk, next := read.body.items[0].bytes, offset + |read.body.items[0].bytes|;
              && HandedOut(pacer.pacing, next, delivered, chunks)
              && (read.heldOpen || after.received <= read.requested ==>
                    HandedOut(pacer.pacing, next, delivered + chunk, chunks + 1))
              && (read.heldOpen || after.received < read.requested ==>
                    && InFlight(pacer.pacing, next, after, command, answered)
                    && Smooth(pacer.pacing, next, Some(after), command, answered, false, false))
              && (!read.heldOpen ==> Smooth(pacer.pacing, next, None, command, answered, false, false))
              && (Served() && !read.heldOpen ==>
                    after.received <= read.requested && (after.received == read.requested ==> after.body.items == []))
              && (after.body.items == [] ==>
                    after.received == |BytesOf(taken.items)| && after.deviceTime + after.body.closing == TotalTime(taken))
    {
      LastChunk();
      hide HandedOut, InFlight, ServedWith, InOneRead, AllData, AfterChunk;
      var read := current.value;
      HandedOutBefore(pacer.pacing, offset, delivered, chunks, |read.body.items[0].bytes|);
      if read.heldOpen || AfterChunk(read).received <= read.requested {
        ChunkIsHandedOut(pacer.pacing, offset, read, command, answered, delivered, chunks);
      }
      if read.heldOpen || AfterChunk(read).received < read.requested {
        ReadAdvances(pacer.pacing, offset, read, command, answered);
      }
      if Served() {
        ServedReadFits(pacer.pacing, offset, read, command, answered);
      }
    }

    lemma {:induction false} HandedOutBefore(
      pacing: DownloadPacing, offset: nat, delivered: seq<byte>, chunks: nat, more: nat)
      requires HandedOut(pacing, offset, delivered, chunks)
      ensures HandedOut(pacing, offset + more, delivered, chunks)
    {
    }

    /** A read that fails, or ends without a byte, is not one from a device that serves. */
    lemma {:induction false} BrokenIsNotServed()
      requires Valid() && current.Some?
      requires var read := current.value;
               if read.body.items == [] then read.received == 0 else read.body.items[0].Failed?
      ensures !Served()
    {
      if Served() {
        DataHasBytes(current.value.body.items);
      }
    }

    /** Finishes a window whose requested bytes have all arrived: its next item has to be its end. */
    method CloseFullWindow(read: ActiveRead) returns (r: Result<(), PtpError>)
      modifies this`current, this`pacer
      ensures current.None? && pacer.pacing == old(pacer.pacing)
      ensures r.Ok? <==> read.body.items == []
      ensures r.Ok? ==> pacer == old(pacer).Record(read.received, read.deviceTime + read.body.closing)
      ensures r.Err? ==> r.error == if read.body.items[0].Chunk? then InvalidData else read.body.items[0].error
    {
      current := None;
      if read.body.items != [] {
        var extra := read.body.items[0];
        return Err(if extra.Chunk? then InvalidData else extra.error);
      }
      pacer := pacer.Record(read.received, read.deviceTime + read.body.closing);
      return Ok(());
    }

    /** Hands on a chunk that leaves the read in flight. */
    method KeepReading() returns (chunk: seq<byte>)
      requires Valid() && ChunkIsNext()
      requires current.value.heldOpen || AfterChunk(current.value).received < current.value.requested
      modifies this`offset, this`current, this`delivered, this`chunks
      ensures Valid() && Closer()
      ensures chunk == old(current.value.body.items[0].bytes) && current == Some(AfterChunk(old(current.value)))
      ensures delivered == old(delivered) + chunk && offset == old(offset) + |chunk| && chunks == old(chunks) + 1
    {
      hide HandedOut, InFlight, Smooth, ServedWith, BoundedWith, TrustedWith;
      var read := current.value;
      chunk := read.body.items[0].bytes;
      Bounds();
      NextChunkFits();
      offset := offset + |chunk|;
      current := Some(AfterChunk(read));
      delivered, chunks := delivered + chunk, chunks + 1;
    }

    /** Hands on a window's last chunk, once the device has closed the window. */
    method FinishWindow() returns (r: Result<seq<byte>, PtpError>)
      requires Valid() && ChunkIsNext()
      requires !current.value.heldOpen && AfterChunk(current.value).received == current.value.requested
      modifies this
      ensures Valid() && pacer.pacing == old(pacer.pacing) && taken == old(taken) && command == old(command)
      ensures r.Err? ==> done && failed && delivered == old(delivered) && chunks == old(chunks)
      ensures r.Err? ==> offset == old(offset) + |old(current.value.body.items[0].bytes)|
      ensures r.Ok? ==> !done && !failed && Closer() && current.None?
      ensures r.Ok? ==> pacer == old(pacer).Record(|BytesOf(taken.items)|, TotalTime(taken))
      ensures r.Ok? ==> r.value == old(current.value.body.items[0].bytes)
      ensures r.Ok? ==> delivered == old(delivered) + r.value && offset == old(offset) + |r.value|
      ensures r.Ok? ==> chunks == old(chunks) + 1
    {
      hide HandedOut, InFlight, Smooth, ServedWith, BoundedWith, TrustedWith;
      var read := current.value;
      var chunk := read.body.items[0].bytes;
      NextChunkFits();
      WindowIsOpen();
      offset := offset + |chunk|;
      var closed := CloseFullWindow(AfterChunk(read));
      if closed.Err? {
        Fail();
        return Err(closed.error);
      }
      delivered, chunks := delivered + chunk, chunks + 1;
      return Ok(chunk);
    }

    /** A window in flight has bytes to come, inside the range. */
    lemma {:induction false} WindowIsOpen()
      requires Valid() && current.Some? && !current.value.heldOpen
      ensures current.value.received < current.value.requested && offset < end
    {
    }

    /** The next item of the read in flight is a chunk: account for it, close a full window, hand it on. */
    method TakeChunk() returns (r: Result<seq<byte>, PtpError>)
      requires Valid() && ChunkIsNext()
      modifies this
      ensures Valid() && pacer.pacing == old(pacer.pacing)
      ensures r.Err? ==> done && failed && delivered == old(delivered) && chunks == old(chunks)
      ensures r.Err? ==> offset == old(offset) + |old(current.value.body.items[0].bytes)|
      ensures r.Ok? ==> !done && !failed && Closer() && !WindowIsFull()
      ensures r.Ok? && current.Some? ==> current.value == AfterChunk(old(current.value)) && pacer == old(pacer)
      ensures r.Ok? && current.None? ==>
                !old(current.value.heldOpen) && pacer == old(pacer).Record(|BytesOf(taken.items)|, TotalTime(taken))
      ensures taken == old(taken) && command == old(command)
      ensures old(current.value.heldOpen) ==> r.Ok?
      ensures r.Ok? ==> r.value == old(current.value.body.items[0].bytes)
      ensures r.Ok? ==> delivered == old(delivered) + r.value && offset == old(offset) + |r.value|
      ensures r.Ok? ==> chunks == old(chunks) + 1
    {
      hide HandedOut, InFlight, Smooth, ServedWith, BoundedWith, TrustedWith;
      var read := current.value;
      var received := AfterChunk(read).received;
      if !read.heldOpen && received > read.requested {
        NextChunkFits();
        offset := offset + |read.body.items[0].bytes|;
        Fail();
        return Err(InvalidData);
      }
      if !read.heldOpen && received == read.requested {
        r := FinishWindow();
      } else {
        var chunk := KeepReading();
        r := Ok(chunk);
      }
    }

    /** A window whose bytes have all arrived still holds the session. */
    ghost predicate WindowIsFull()
      reads this
    {
      current.Some? && !current.value.heldOpen && current.value.received >= current.value.requested
    }

    /** The read in flight has an item: its next chunk, or its failure. */
    method TakeItem() returns (r: Result<seq<byte>, PtpError>)
      requires Valid() && !done && current.Some? && current.value.body.items != []
      modifies this
      ensures Valid() && pacer.pacing == old(pacer.pacing)
      ensures r.Err? ==> done && failed && delivered == old(delivered) && chunks == old(chunks)
      ensures r.Ok? ==> !done && !failed && Closer() && !WindowIsFull()
      ensures r.Ok? ==>
                pacer == if current.Some? then old(pacer) else old(pacer).Record(|BytesOf(taken.items)|, TotalTime(taken))
      ensures taken == old(taken) && command == old(command)
      ensures old(ChunkIsNext() && current.value.heldOpen) ==> r.Ok? && current == Some(AfterChunk(old(current.value)))
      ensures old(current.value.body.items[0]).Failed? ==> r == Err(old(current.value.body.items[0]).error)
      ensures r.Ok? ==> old(ChunkIsNext()) && r.value == old(current.value.body.items[0].bytes)
      ensures r.Ok? && backend.NoEmptyChunks() ==> r.value != []
      ensures r.Ok? ==> delivered == old(delivered) + r.value && offset == old(offset) + |r.value|
      ensures r.Ok? ==> chunks == old(chunks) + 1
    {
      hide HandedOut, InFlight, Smooth, ServedWith, BoundedWith, TrustedWith;
      if current.value.body.items[0].Failed? {
        BrokenIsNotServed();
        r := Err(current.value.body.items[0].error);
        Fail();
      } else {
        ChunkHoldsSome();
        r := TakeChunk();
      }
    }

    lemma {:induction false} ChunkHoldsSome()
      requires Valid() && ChunkIsNext()
      ensures backend.NoEmptyChunks() ==> current.value.body.items[0].bytes != []
    {
      if backend.NoEmptyChunks() {
        TailIsNoneEmpty(current.value.body.items);
      }
    }

    /** The read in flight has ended: a stall if it brought nothing, and otherwise legal, however short. */
    method EndRead() returns (r: Result<(), PtpError>)
      requires Valid() && !done && current.Some? && current.value.body.items == []
      modifies this`current, this`pacer, this`done, this`failed
      ensures Valid() && current.None? && pacer.pacing == old(pacer.pacing)
      ensures r.Err? <==> old(current.value.received) == 0 && offset < end
      ensures r.Err? ==> done && failed && r.error == InvalidData
      ensures r.Ok? ==> !done && failed == old(failed) && pacer == old(Rested())
    {
      if current.value.received == 0 && offset < end {
        BrokenIsNotServed();
        Fail();
        return Err(InvalidData);
      }
      CloseRead();
      return Ok(());
    }

    /** Between reads: whether there is more to read, in which case the next read is in flight. */
    method Reopen() returns (r: Result<bool, PtpError>)
      requires Valid() && !done && current.None?
      modifies this`current, this`started, this`done, this`failed, this`command, this`taken, this`answered, backend`sent
      ensures Valid()
      ensures r == Ok(true) ==> !done && failed == old(failed) && current.Some? && current.value.received == 0 && offset < end
      ensures r == Ok(true) ==> IsAnswered(old(backend.sent))
      ensures r == Ok(false) ==> done && failed == old(failed) && current.None?
      ensures r == Ok(false) <==> offset >= end
      ensures r.Err? ==> done && failed
      ensures AtMostOneSent(old(backend.sent), backend.sent)
      ensures Windowed() && |backend.sent| > |old(backend.sent)| ==>
                IsWindow(backend, start, end, backend.sent[|old(backend.sent)|], offset, pacer)
    {
      hide HandedOut, InFlight, ServedWith, InOneRead, IsWindow, AtMostOneSent;
      NothingSent(backend.sent);
      if offset >= end {
        done := true;
        return Ok(false);
      }
      var next := StartNextRead();
      if next.Err? {
        Fail();
        return Err(next.error);
      }
      return Ok(true);
    }

    /** The next chunk, or `None` at the end. After an error or `None` there is nothing more. */
    method NextChunk() returns (r: Option<Result<seq<byte>, PtpError>>)
      requires Valid()
      modifies this, backend`sent
      ensures Valid() && pacer.pacing == old(pacer.pacing)
      ensures old(done) ==> r == None && done && backend.sent == old(backend.sent)
      ensures r.None? ==> done && delivered == old(delivered) && offset == old(offset) && failed == old(failed)
      ensures r.None? && !old(done) ==> offset >= end
      ensures r.Some? && r.value.Err? ==> done && failed && delivered == old(delivered)
      ensures r.Some? && r.value.Ok? ==>
                && !done && !failed && Closer() && !WindowIsFull()
                && delivered == old(delivered) + r.value.value && offset == old(offset) + |r.value.value|
                && (pacer == if current.Some? then old(Rested())
                             else old(Rested()).Record(|BytesOf(taken.items)|, TotalTime(taken)))
                && (if backend.sent == old(backend.sent) then taken == old(taken) else IsAnswered(old(backend.sent)))
                && (backend.NoEmptyChunks() ==> r.value.value != [])
      ensures chunks == old(chunks) + if r.Some? && r.value.Ok? then 1 else 0
      ensures AtMostOneSent(old(backend.sent), backend.sent)
      ensures Windowed() && |backend.sent| > |old(backend.sent)| ==>
                IsWindow(backend, start, end, backend.sent[|old(backend.sent)|], old(offset), old(Rested()))
      ensures old(ChunkIsNext() && current.value.heldOpen) ==>
                && r == Some(Ok(old(current.value.body.items[0].bytes)))
                && current == Some(AfterChunk(old(current.value)))
      ensures old(offset >= end && (current.Some? ==> current.value.body.items == [])) ==> r == None
    {
      hide HandedOut, InFlight, Smooth, ServedWith, IsWindow, AtMostOneSent, Pacer.Record, AfterChunk;
      NothingSent(backend.sent);
      if done {
        return None;
      }
      var reopened := false;
      while true
        invariant Valid() && !done && pacer.pacing == old(pacer.pacing)
        invariant offset == old(offset) && delivered == old(delivered) && failed == old(failed) && chunks == old(chunks)
        invariant !reopened ==> current == old(current) && backend.sent == old(backend.sent) && pacer == old(pacer)
        invariant if reopened then IsAnswered(old(backend.sent)) else taken == old(taken) && command == old(command)
        invariant reopened ==> pacer == old(Rested()) && (old(current).None? || old(current).value.body.items == [])
        invariant reopened ==> current.Some? && current.value.received == 0 && offset < end && old(ReadsLeft()) == 1
        invariant AtMostOneSent(old(backend.sent), backend.sent)
        invariant Windowed() && |backend.sent| > |old(backend.sent)| ==>
                    IsWindow(backend, start, end, backend.sent[|old(backend.sent)|], old(offset), old(Rested()))
        decreases if reopened then 0 else 1
      {
        if current.Some? {
          if current.value.body.items != [] {
            var item := TakeItem();
            return Some(item);
          }
          var ended := EndRead();
          if ended.Err? {
            return Some(Err(ended.error));
          }
        }
        var more := Reopen();
        if more.Err? {
          return Some(Err(more.error));
        }
        if !more.value {
          return None;
        }
        reopened := true;
      }
    }

    /** Stops the download and gives the device back; `released` is what giving it back came to. */
    method Cancel(released: Result<(), PtpError>) returns (r: Result<(), PtpError>)
      requires Valid()
      modifies this`current, this`done
      ensures Valid() && done && current.None?
      ensures r == if old(current).Some? then released else Ok(())
    {
      done := true;
      if current.Some? {
        current := None;
        return released;
      }
      return Ok(());
    }

    /** With chunks that all hold something and reads that are bounded, no more chunks than bytes. */
    ghost predicate FewChunks(before: nat, from: nat)
      reads this
    {
      Bounded() && backend.NoEmptyChunks() ==> chunks - before <= end - from
    }

    /** The next chunk, seen from a run: the windows since `first`, and a read that `brings` its `whole`. */
    method Pull(ghost first: seq<Command>, ghost brings: bool, ghost data: seq<byte>, ghost whole: seq<byte>)
      returns (r: Option<Result<seq<byte>, PtpError>>)
      requires Valid() && !done && first <= backend.sent
      requires Windowed() ==> OnlyWindows(backend, start, end, pacer.pacing, backend.sent, |first|)
      requires brings ==> Carries(current, offset, end, data, whole)
      modifies this, backend`sent
      ensures Valid() && pacer.pacing == old(pacer.pacing) && first <= backend.sent
      ensures Windowed() ==> OnlyWindows(backend, start, end, pacer.pacing, backend.sent, |first|)
      ensures r.None? ==> done && delivered == old(delivered) && chunks == old(chunks) && offset >= end && failed == old(failed)
      ensures r.Some? && r.value.Err? ==> done && failed && delivered == old(delivered) && chunks == old(chunks)
      ensures r.Some? && r.value.Ok? ==>
                && !done && !failed && Closer() && delivered == old(delivered) + r.value.value && chunks == old(chunks) + 1
                && (backend.NoEmptyChunks() ==> r.value.value != [])
      ensures brings && r.None? ==> data == whole
      ensures old(current.None? && offset >= end) ==> r == None
      ensures brings && r.Some? ==> r.value.Ok? && Carries(current, offset, end, data + r.value.value, whole)
    {
      hide Valid, Carries, OnlyWindows, IsWindow, AfterChunk;
      ghost var sent, at, p := backend.sent, offset, Rested();
      if brings {
        CarriesOn(current, offset, end, data, whole);
      }
      r := NextChunk();
      if Windowed() {
        OneMoreWindow(backend, start, end, sent, backend.sent, |first|, at, p);
      }
    }

    /**
     All remaining data. Against a trusted device that is the rest of the range, to the byte. A
     held-open body that brings the rest, or more, is handed on as it is.
     */
    method Collect() returns (r: Result<seq<byte>, PtpError>)
      requires Valid() && !done && offset <= end
      modifies this, backend`sent
      ensures Valid() && done && current.None? && pacer.pacing == old(pacer.pacing)
      ensures r.Ok? && Trusted() ==> r.value == backend.content[old(offset)..end]
      ensures Served() ==> r.Ok?
      ensures r.Ok? ==> delivered == old(delivered) + r.value && !failed && offset >= end
      ensures FewChunks(old(chunks), old(offset))
      ensures old(backend.sent) <= backend.sent
      ensures Windowed() ==> OnlyWindows(backend, start, end, pacer.pacing, backend.sent, |old(backend.sent)|)
      ensures old(Brings(current, offset, end)) ==> r == Ok(old(BytesOf(current.value.body.items)))
      ensures old(current.None? && offset >= end) ==> r == Ok([])
    {
      hide HandedOut, InFlight, Smooth, ServedWith, BoundedWith, TrustedWith, Carries, Brings, BytesOf, OnlyWindows, IsWindow,
        AfterChunk;
      var data: seq<byte> := [];
      ghost var brings := Brings(current, offset, end);
      ghost var whole := if current.Some? then BytesOf(current.value.body.items) else [];
      Carrying(current, offset, end);
      NoWindowsYet(backend, start, end, pacer.pacing, backend.sent);
      while true
        invariant Valid() && !done && !failed && pacer.pacing == old(pacer.pacing)
        invariant delivered == old(delivered) + data
        invariant backend.NoEmptyChunks() ==> chunks - old(chunks) <= |data|
        invariant old(backend.sent) <= backend.sent
        invariant Windowed() ==> OnlyWindows(backend, start, end, pacer.pacing, backend.sent, |old(backend.sent)|)
        invariant brings ==> Carries(current, offset, end, data, whole)
        invariant old(current.None? && offset >= end) ==> data == [] && current.None? && offset >= end
        decreases BytesLeft(), ReadsLeft(), ItemsLeft()
      {
        var chunk := Pull(old(backend.sent), brings, data, whole);
        Bounds();
        if chunk.None? {
          if Trusted() {
            DeliveredIsContent();
            TailOfSlice(backend.content, start, old(offset), end, old(delivered), data);
          }
          return Ok(data);
        }
        if chunk.value.Err? {
          return Err(chunk.value.error);
        }
        data := data + chunk.value.value;
      }
    }

    lemma {:induction false} DeliveredIsContent()
      requires Valid() && Trusted() && !failed
      ensures start <= offset <= end <= |backend.content| && delivered == backend.content[start..offset]
    {
    }

    /** Up to `n` chunks, end to end. */
    method TakeChunks(n: nat) returns (r: Result<seq<byte>, PtpError>)
      requires Valid() && !failed
      modifies this, backend`sent
      ensures Valid() && pacer.pacing == old(pacer.pacing)
      ensures r.Ok? ==> !failed && delivered == old(delivered) + r.value && (done || chunks == old(chunks) + n)
      ensures FewChunks(old(chunks), old(offset))
      ensures Served() ==> r.Ok?
    {
      hide HandedOut, InFlight, Smooth, ServedWith, BoundedWith, TrustedWith;
      Bounds();
      var data: seq<byte> := [];
      var taken := 0;
      while taken < n
        invariant Valid() && !failed && pacer.pacing == old(pacer.pacing)
        invariant delivered == old(delivered) + data && taken <= n && chunks == old(chunks) + taken
        invariant backend.NoEmptyChunks() ==> taken <= |data|
      {
        var chunk := NextChunk();
        if chunk.None? {
          break;
        }
        Bounds();
        if chunk.value.Err? {
          return Err(chunk.value.error);
        }
        data := data + chunk.value.value;
        taken := taken + 1;
      }
      Bounds();
      return Ok(data);
    }
  }

  /** The pacing a download settles on: held open when partial reads can't cover a whole file to its end. */
  function StartPacing(has64: bool, has32: bool, range: ByteRange, size: u64, pacing: DownloadPacing): DownloadPacing {
    var wholeFile := RangeStart(range) == 0 && RangeEnd(range, size) == size;
    if wholeFile && size > 0 && PlanPartialRead(has64, has32, size - 1).Err? then HeldOpen else pacing
  }

  /** The command a held-open download of `range` opens with. */
  function FirstCommand(has64: bool, has32: bool, range: ByteRange, size: u64): Result<Command, PtpError>
    requires RangeStart(range) <= RangeEnd(range, size)
  {
    DownloadCommand(has64, has32, RestOf(RangeStart(range), RangeEnd(range, size), size), size)
  }

  /**
   A device that answers every read, with partial reads that reach the range's last byte or, for a
   whole object, a `GetObject` that sends all of it.
   */
  ghost predicate ServingDevice(backend: UsbBackend, range: ByteRange, size: u64) {
    var start, end := RangeStart(range), RangeEnd(range, size);
    || backend.CanServe(start, end, size)
    || (|backend.content| == size && backend.Serves() && start == 0 && end == size && backend.SendsWholeObject())
  }

  /** What is sent past a request is never taken for data: nothing is held open, or nothing is read at all. */
  predicate TellsOverruns(has64: bool, has32: bool, range: ByteRange, size: u64, pacing: DownloadPacing) {
    || RangeStart(range) >= RangeEnd(range, size)
    || !StartPacing(has64, has32, range, size, pacing).HeldOpen?
    || FirstCommand(has64, has32, range, size).Err?
  }

  /** A device true to the object, that keeps to its requests where overruns aren't told. */
  ghost predicate TrustedDevice(backend: UsbBackend, range: ByteRange, size: u64, pacing: DownloadPacing) {
    backend.TrueTo(size)
    && (TellsOverruns(backend.has64, backend.has32, range, size, pacing) || backend.KeepsToRequests(size))
  }

  /** Sets up a download. A held-open one sends its command here; a windowed one sends nothing yet. */
  method Start(backend: UsbBackend, size: u64, range: ByteRange, pacing: DownloadPacing)
    returns (r: Result<FileDownload, PtpError>)
    modifies backend`sent
    ensures RangeStart(range) > size ==> r == Err(InvalidData) && backend.sent == old(backend.sent)
    ensures r.Ok? ==>
              var d := r.value;
              && fresh(d) && d.backend == backend && d.size == size && d.Valid()
              && d.start == RangeStart(range) == d.offset && d.end == RangeEnd(range, size) && d.start <= size
              && d.delivered == [] && d.chunks == 0 && !d.done && !d.failed
              && d.pacer.pacing == StartPacing(backend.has64, backend.has32, range, size, pacing)
    ensures !StartPacing(backend.has64, backend.has32, range, size, pacing).HeldOpen? ==>
              backend.sent == old(backend.sent) && (r.Ok? ==> r.value.current.None?)
    ensures r.Ok? && RangeStart(range) >= RangeEnd(range, size) ==> r.value.current.None?
    ensures AtMostOneSent(old(backend.sent), backend.sent)
    ensures RangeStart(range) <= size && ServingDevice(backend, range, size) ==> r.Ok? && r.value.Served()
    ensures var start, end := RangeStart(range), RangeEnd(range, size);
            start < end && StartPacing(backend.has64, backend.has32, range, size, pacing).HeldOpen? ==>
              var c := FirstCommand(backend.has64, backend.has32, range, size);
              if c.Err? then r == Err(c.error)
              else
                var body := backend.answer(|old(backend.sent)|, c.value);
                if body.Err? then r == Err(body.error)
                else r.Ok? && r.value.current == Some(ActiveRead(body.value, true, end - start, 0, body.value.opening))
  {
    hide AllData, UsbBackend.SendsTrueBytes, UsbBackend.NeverOverruns, UsbBackend.Serves, UsbBackend.NoEmptyChunks,
      UsbBackend.SendsWholeObject, FileDownload.InFlight, FileDownload.Timed, FileDownload.IsAnswered, DownloadCommand,
      IsWindow, AtMostOneSent;
    NothingSent(backend.sent);
    var start := RangeStart(range);
    if start > size {
      return Err(InvalidData);
    }
    var end := RangeEnd(range, size);
    var wholeFile := start == 0 && end == size;
    var pacing' := if wholeFile && end > 0 && !backend.CanReadPartiallyAt(end - 1) then HeldOpen else pacing;
    var download := new FileDownload(backend, size, start, end, pacing');
    var heldOpen := pacing'.HeldOpen? || !backend.CanReadPartiallyAt(start);
    if heldOpen && start < end {
      var _ :- download.StartNextRead();
    }
    return Ok(download);
  }

  /**
   A whole download. For every pacing, range, device speed and way of cutting or shortening reads it
   ends, and data without an error is exactly the range of the object; if it isn't held open, that
   holds for overrunning reads too, and every command is a window inside the range. A held-open
   download whose first body brings the range, or more, returns that body as it is.
   */
  method Fetch(backend: UsbBackend, range: ByteRange, size: u64, pacing: DownloadPacing)
    returns (r: Result<seq<byte>, PtpError>)
    modifies backend`sent
    ensures r.Ok? ==> RangeStart(range) <= size
    ensures r.Ok? && TrustedDevice(backend, range, size, pacing) ==>
              r.value == backend.content[RangeStart(range)..RangeEnd(range, size)]
    ensures RangeStart(range) <= size && ServingDevice(backend, range, size) ==> r.Ok?
    ensures old(backend.sent) <= backend.sent
    ensures var settled := StartPacing(backend.has64, backend.has32, range, size, pacing);
            !settled.HeldOpen? ==>
              OnlyWindows(
                backend, RangeStart(range), RangeEnd(range, size), settled, backend.sent, |old(backend.sent)|)
    ensures FirstBodyBrings(backend, |old(backend.sent)|, range, size, pacing) ==>
              r == Ok(FirstBytes(backend, |old(backend.sent)|, range, size))
  {
    hide UsbBackend.SendsTrueBytes, UsbBackend.NeverOverruns, UsbBackend.Serves, UsbBackend.SendsWholeObject,
      FileDownload.HandedOut, FileDownload.InFlight, FileDownload.Smooth, DownloadCommand, IsSomeWindow, BytesOf;
    var download :- Start(backend, size, range, pacing);
    r := download.Collect();
  }

  /** A held-open download of `range` opens, as the n-th command, with a read that brings at least the range. */
  ghost predicate FirstBodyBrings(backend: UsbBackend, n: nat, range: ByteRange, size: u64, pacing: DownloadPacing) {
    && RangeStart(range) < RangeEnd(range, size)
    && StartPacing(backend.has64, backend.has32, range, size, pacing).HeldOpen?
    && var c := FirstCommand(backend.has64, backend.has32, range, size);
    && c.Ok? && backend.answer(n, c.value).Ok?
    && var items := backend.answer(n, c.value).value.items;
    && AllChunks(items) && |BytesOf(items)| >= RangeEnd(range, size) - RangeStart(range)
  }

  ghost function FirstBytes(backend: UsbBackend, n: nat, range: ByteRange, size: u64): seq<byte>
    requires RangeStart(range) <= RangeEnd(range, size) && FirstCommand(backend.has64, backend.has32, range, size).Ok?
    requires backend.answer(n, FirstCommand(backend.has64, backend.has32, range, size).value).Ok?
  {
    BytesOf(backend.answer(n, FirstCommand(backend.has64, backend.has32, range, size).value).value.items)
  }

  /** A download stopped by `cancel` after some chunks: its data, and the offset it reached. */
  method FetchSome(backend: UsbBackend, range: ByteRange, size: u64, pacing: DownloadPacing, stopAfter: nat)
    returns (r: Result<(seq<byte>, u64), PtpError>)
    modifies backend`sent
    ensures r.Ok? ==> RangeStart(range) <= r.value.1 <= RangeEnd(range, size) <= size
    ensures r.Ok? && TrustedDevice(backend, range, size, pacing) ==>
              r.value.0 == backend.content[RangeStart(range)..r.value.1]
    ensures RangeStart(range) <= size && ServingDevice(backend, range, size) ==> r.Ok?
  {
    hide UsbBackend.SendsTrueBytes, UsbBackend.NeverOverruns, UsbBackend.Serves, UsbBackend.SendsWholeObject,
      FileDownload.Valid, DownloadCommand, IsSomeWindow, BytesOf, ServingDevice, FileDownload.ServedWith;
    var download :- Start(backend, size, range, pacing);
    var data :- download.TakeChunks(stopAfter);
    var _ := download.Cancel(Ok(()));
    download.Bounds();
    if download.offset > download.end {
      assert !download.Served();
      return Err(InvalidData);
    }
    if TrustedDevice(backend, range, size, pacing) && download.start < download.end {
      download.DeliveredIsContent();
    }
    return Ok((data, download.offset));
  }

  /** What is left of `range` from `at` on, as a caller asks for it. */
  function Resumed(range: ByteRange, size: u64, at: u64): ByteRange
    requires at <= RangeEnd(range, size)
  {
    if range.Range? then Range(at, RangeEnd(range, size) - at) else From(at)
  }

  /** A device trusted with a range is trusted with what is left of it. */
  lemma {:induction false} ResumedIsTrusted(
    backend: UsbBackend, range: ByteRange, size: u64, pacing: DownloadPacing, at: u64)
    requires RangeStart(range) <= at <= RangeEnd(range, size)
    ensures var rest := Resumed(range, size, at);
            && RangeStart(rest) == at && RangeEnd(rest, size) == RangeEnd(range, size)
            && (TrustedDevice(backend, range, size, pacing) ==> TrustedDevice(backend, rest, size, pacing))
            && (backend.CanServe(RangeStart(range), RangeEnd(range, size), size) ==> ServingDevice(backend, rest, size))
  {
    hide UsbBackend.SendsTrueBytes, UsbBackend.NeverOverruns, UsbBackend.Serves;
  }

  /**
   Stopping after some chunks and resuming from `offset()` also yields the whole range, whatever
   pacing either part uses.
   */
  method FetchInTwoParts(
    backend: UsbBackend, range: ByteRange, size: u64, pacing: DownloadPacing, stopAfter: nat,
    resumePacing: DownloadPacing
  ) returns (r: Result<seq<byte>, PtpError>)
    modifies backend`sent
    ensures r.Ok? ==> RangeStart(range) <= size
    ensures r.Ok? && TrustedDevice(backend, range, size, pacing) && TrustedDevice(backend, range, size, resumePacing) ==>
              r.value == backend.content[RangeStart(range)..RangeEnd(range, size)]
    ensures RangeStart(range) <= size && backend.CanServe(RangeStart(range), RangeEnd(range, size), size) ==> r.Ok?
  {
    hide UsbBackend.SendsTrueBytes, UsbBackend.NeverOverruns, UsbBackend.Serves, OnlyWindows, FirstBodyBrings;
    var first :- FetchSome(backend, range, size, pacing, stopAfter);
    var (data, at) := first;
    ResumedIsTrusted(backend, range, size, resumePacing, at);
    var rest :- Fetch(backend, Resumed(range, size, at), size, resumePacing);
    if TrustedDevice(backend, range, size, pacing) && TrustedDevice(backend, range, size, resumePacing) {
      assert data + rest == backend.content[RangeStart(range)..RangeEnd(range, size)];
    }
    return Ok(data + rest);
  }

  // --- What a held-open download can't tell ---

  /** A device that answers `c` with `bytes`, in one chunk, and refuses anything else. */
  function Overrunning(c: Command, bytes: seq<byte>): (nat, Command) -> Result<Body, PtpError> {
    (i, asked) => if asked == c then Ok(Body(0, [Chunk(bytes, 0)], 0)) else Err(Unsupported)
  }

  lemma {:induction false} OneChunk(bytes: seq<byte>)
    ensures BytesOf([Chunk(bytes, 0)]) == bytes && AllChunks([Chunk(bytes, 0)])
  {
    assert BytesOf([Chunk(bytes, 0)]) == bytes + BytesOf([Chunk(bytes, 0)][1..]);
  }

  lemma {:induction false} OverrunIsTrue(content: seq<byte>, c: Command, start: nat, end: nat, extra: seq<byte>)
    requires start <= end <= |content| && CommandOffset(c) == start && CommandLimit(c, |content|) <= end - start
    ensures TrueBytes(content, c, content[start..end] + extra)
  {
  }

  /**
   Where overruns aren't told, some device true to the object as far as it is asked has its excess
   come out as data, without an error. With `Fetch`, then, for every object, range and pacing: every
   true device gives the range or an error if and only if `TellsOverruns`.
   */
  method FetchOverrun(
    has64: bool, has32: bool, content: seq<byte>, range: ByteRange, pacing: DownloadPacing, extra: seq<byte>
  ) returns (backend: UsbBackend, r: Result<seq<byte>, PtpError>)
    requires |content| <= U64_MAX && !TellsOverruns(has64, has32, range, |content|, pacing)
    ensures backend.has64 == has64 && backend.has32 == has32 && backend.content == content && backend.TrueTo(|content|)
    ensures r == Ok(content[RangeStart(range)..RangeEnd(range, |content|)] + extra)
    ensures extra != [] ==> r.value != content[RangeStart(range)..RangeEnd(range, |content|)]
  {
    hide DownloadCommand, CommandOffset, CommandLimit, TrueBytes, BytesOf;
    var start, end := RangeStart(range), RangeEnd(range, |content|);
    var c := FirstCommand(has64, has32, range, |content|).value;
    var bytes := content[start..end] + extra;
    OneChunk(bytes);
    HeldOpenCommand(has64, has32, RestOf(start, end, |content|), |content|);
    OverrunIsTrue(content, c, start, end, extra);
    backend := new UsbBackend(has64, has32, content, Overrunning(c, bytes));
    r := Fetch(backend, range, |content|, pacing);
  }

  /** One such: the object is one byte, the device sends two, and both come out. */
  method OverrunExample() returns (backend: UsbBackend, r: Result<seq<byte>, PtpError>)
    ensures backend.content == [1] && backend.TrueTo(1) && r == Ok([1, 2])
  {
    backend, r := FetchOverrun(true, true, [1], Full, HeldOpen, [2]);
    assert [1][0..1] + [2] == [1, 2];
  }
}
