/**
 The per-handle listing of crates/mtp-rs/src/mtp/backend/usb.rs (choosing the handles to visit,
 filtering by parent, reading one handle at a time) and its tolerant collection in
 crates/mtp-rs/src/mtp/storage.rs.
 */
module Listing {
  import opened Common
  import opened Objects

  const GENERAL_ERROR: u16 := 0x2002
  const INVALID_OBJECT_HANDLE: u16 := 0x2009
  const GET_OBJECT_INFO: u16 := 0x1008

  // --- Which handles, filtered how ---

  datatype ParentFilter = Exact(parent: Handle) | Root(storage: Option<StorageId>) {
    predicate Accepts(p: Handle) {
      match this
      case Exact(expected) => p == expected
      case Root(s) => p == 0 || p == 0xFFFF_FFFF || (s.Some? && p == s.value)
    }
  }

  /** The storage ID marks the root only while it isn't also a listed handle. */
  function RootFilter(storage: StorageId, handles: seq<Handle>): ParentFilter {
    Root(if storage in handles then None else Some(storage))
  }

  /** The device answered no, as opposed to the session or the transport failing. */
  predicate IsRejection(e: PtpError) { e.Protocol? || e.Io? }

  /**
   The handles of a listing and how to filter them. `answer(i, p)` is the device's reply to the
   i-th request for the handles under parent `p`; `cancelled` is the token between requests.
   */
  function ResolveListing(
    answer: (nat, Handle) -> Result<seq<Handle>, PtpError>, cancelled: bool, storage: StorageId, parent: Option<Handle>
  ): Result<(seq<Handle>, ParentFilter), PtpError>
  {
    var first := answer(0, ALL);
    if parent.None? && first.Ok? then Ok((first.value, RootFilter(storage, first.value)))
    else if parent.None? && !IsRejection(first.error) then Err(first.error)
    else if cancelled then Err(Cancelled)
    else
      var asked := if parent.None? then 1 else 0;
      var under := if parent.None? then ROOT else parent.value;
      match answer(asked, under)
      case Ok(handles) => Ok((handles, Exact(under)))
      case Err(e) =>
        if parent.None? && e.Protocol? && e.code == INVALID_OBJECT_HANDLE then
          var handles :- answer(2, ALL);
          Ok((handles, RootFilter(storage, handles)))
        else Err(e)
  }

  // --- One handle at a time ---

  datatype ListingError = ListingError(handle: Handle, source: PtpError, skippable: bool)

  /** What visiting a handle comes to. */
  datatype Outcome =
    | Readable(info: ObjectInfo)
    | Filtered(handle: Handle)
    | Skipped(handle: Handle, error: PtpError)
    | Fatal(handle: Handle, error: PtpError)

  /** Only a `GeneralError` answer to `GetObjectInfo` is about one object alone. */
  predicate IsSkippable(e: PtpError) { e == Protocol(GENERAL_ERROR, GET_OBJECT_INFO) }

  function Visit(h: Handle, filter: ParentFilter, cancelled: bool, read: Result<ObjectInfo, PtpError>): Outcome {
    if cancelled then Fatal(h, Cancelled)
    else
      match read
      case Ok(info) => if filter.Accepts(info.parent) then Readable(info.(handle := h)) else Filtered(h)
      case Err(e) => if IsSkippable(e) then Skipped(h, e) else Fatal(h, e)
  }

  /** The listing stream: handles to visit, and the device's and the token's answers for each. */
  class ObjectStream {
    const handles: seq<Handle>
    const filter: ParentFilter
    const read: nat -> Result<ObjectInfo, PtpError>
    const cancelled: nat -> bool
    var cursor: nat

    constructor (handles: seq<Handle>, filter: ParentFilter, read: nat -> Result<ObjectInfo, PtpError>, cancelled: nat -> bool)
      ensures this.handles == handles && this.filter == filter && this.read == read && this.cancelled == cancelled
      ensures cursor == 0
    {
      this.handles, this.filter, this.read, this.cancelled, cursor := handles, filter, read, cancelled, 0;
    }

    function At(i: nat): Outcome
      requires i < |handles|
    {
      Visit(handles[i], filter, cancelled(i), read(i))
    }

    /** The next object or error; objects of other parents are passed over. A cancel keeps the cursor. */
    method Next() returns (r: Option<Result<ObjectInfo, ListingError>>)
      requires cursor <= |handles|
      modifies this
      ensures old(cursor) <= cursor <= |handles|
      ensures r.None? ==> cursor == |handles| && forall i :: old(cursor) <= i < cursor ==> At(i).Filtered?
      ensures r.Some? && r.value.Ok? ==>
                cursor > old(cursor) && At(cursor - 1) == Readable(r.value.value)
                && forall i :: old(cursor) <= i < cursor - 1 ==> At(i).Filtered?
      ensures r.Some? && r.value.Err? && r.value.error.skippable ==>
                cursor > old(cursor) && At(cursor - 1) == Skipped(r.value.error.handle, r.value.error.source)
                && forall i :: old(cursor) <= i < cursor - 1 ==> At(i).Filtered?
      ensures r.Some? && r.value.Err? && !r.value.error.skippable ==>
                exists n :: old(cursor) <= n < |handles| && At(n) == Fatal(r.value.error.handle, r.value.error.source)
                            && forall i :: old(cursor) <= i < n ==> At(i).Filtered?
    {
      while true
        invariant old(cursor) <= cursor <= |handles|
        invariant forall i :: old(cursor) <= i < cursor ==> At(i).Filtered?
        decreases |handles| - cursor
      {
        if cursor >= |handles| {
          return None;
        }
        var handle := handles[cursor];
        if cancelled(cursor) {
          assert At(cursor) == Fatal(handle, Cancelled);
          return Some(Err(ListingError(handle, Cancelled, false)));
        }
        ghost var n := cursor;
        var reply := read(cursor);
        cursor := cursor + 1;
        if reply.Err? {
          assert At(n) == if IsSkippable(reply.error) then Skipped(handle, reply.error) else Fatal(handle, reply.error);
          return Some(Err(ListingError(handle, reply.error, IsSkippable(reply.error))));
        }
        var info := reply.value.(handle := handle);
        if !filter.Accepts(info.parent) {
          assert At(n).Filtered?;
          continue;
        }
        return Some(Ok(info));
      }
    }
  }

  // --- Collecting ---

  datatype SkippedObject = SkippedObject(handle: Handle, error: PtpError)

  datatype ObjectCollection = ObjectCollection(objects: seq<ObjectInfo>, skipped: seq<SkippedObject>)

  function Readables(os: seq<Outcome>): seq<ObjectInfo> {
    if os == [] then []
    else Readables(os[..|os| - 1]) + (if os[|os| - 1].Readable? then [os[|os| - 1].info] else [])
  }

  function Skips(os: seq<Outcome>): seq<SkippedObject> {
    if os == [] then []
    else
      var last := os[|os| - 1];
      Skips(os[..|os| - 1]) + (if last.Skipped? then [SkippedObject(last.handle, last.error)] else [])
  }

  /** The error of the first fatal outcome. */
  function FirstFatal(os: seq<Outcome>): Option<PtpError> {
    if os == [] then None else if os[0].Fatal? then Some(os[0].error) else FirstFatal(os[1..])
  }

  /** What a collection comes to: a fatal error ends it, and a folder that gave only errors is a failure. */
  function Collected(os: seq<Outcome>): Result<ObjectCollection, PtpError> {
    if FirstFatal(os).Some? then Err(FirstFatal(os).value)
    else if Readables(os) == [] && Skips(os) != [] then Err(Skips(os)[0].error)
    else Ok(ObjectCollection(Readables(os), Skips(os)))
  }

  function Outcomes(
    handles: seq<Handle>, filter: ParentFilter, read: nat -> Result<ObjectInfo, PtpError>, cancelled: nat -> bool
  ): (os: seq<Outcome>)
    ensures |os| == |handles|
    ensures forall i :: 0 <= i < |os| ==> os[i] == Visit(handles[i], filter, cancelled(i), read(i))
  {
    seq(|handles|, i requires 0 <= i < |handles| => Visit(handles[i], filter, cancelled(i), read(i)))
  }

  lemma {:induction false} FilteredAddNothing(os: seq<Outcome>, a: nat, b: nat)
    requires a <= b <= |os| && forall i :: a <= i < b ==> os[i].Filtered?
    ensures Readables(os[..b]) == Readables(os[..a]) && Skips(os[..b]) == Skips(os[..a])
  {
    if a < b {
      FilteredAddNothing(os, a, b - 1);
      assert os[..b][..b - 1] == os[..b - 1];
    }
  }

  lemma {:induction false} NothingYet(os: seq<Outcome>)
    ensures Readables(os[..0]) == [] && Skips(os[..0]) == []
  {
  }

  /** Past the filtered ones, the last outcome adds itself. */
  lemma {:induction false} OneMore(os: seq<Outcome>, a: nat, b: nat)
    requires a < b <= |os| && forall i :: a <= i < b - 1 ==> os[i].Filtered?
    ensures var last := os[b - 1];
            && Readables(os[..b]) == Readables(os[..a]) + (if last.Readable? then [last.info] else [])
            && Skips(os[..b]) ==
               Skips(os[..a]) + (if last.Skipped? then [SkippedObject(last.handle, last.error)] else [])
  {
    FilteredAddNothing(os, a, b - 1);
    assert os[..b][..b - 1] == os[..b - 1];
  }

  lemma {:induction false} FatalIsFirst(os: seq<Outcome>, n: nat)
    requires n <= |os| && forall i :: 0 <= i < n ==> !os[i].Fatal?
    ensures n < |os| && os[n].Fatal? ==> FirstFatal(os) == Some(os[n].error)
    ensures n == |os| ==> FirstFatal(os) == None
  {
    if n > 0 {
      FatalIsFirst(os[1..], n - 1);
    }
  }

  /** Reads a folder to the end. */
  method CollectIn(
    handles: seq<Handle>, filter: ParentFilter, read: nat -> Result<ObjectInfo, PtpError>, cancelled: nat -> bool
  ) returns (r: Result<ObjectCollection, PtpError>)
    ensures r == Collected(Outcomes(handles, filter, read, cancelled))
  {
    hide Visit, Readables, Skips, FirstFatal, Outcomes;
    ghost var os := Outcomes(handles, filter, read, cancelled);
    var listing := new ObjectStream(handles, filter, read, cancelled);
    var objects: seq<ObjectInfo> := [];
    var skipped: seq<SkippedObject> := [];
    NothingYet(os);
    while true
      invariant listing.cursor <= |handles|
      invariant listing.handles == handles && listing.filter == filter && listing.read == read && listing.cancelled == cancelled
      invariant objects == Readables(os[..listing.cursor]) && skipped == Skips(os[..listing.cursor])
      invariant forall i :: 0 <= i < listing.cursor ==> !os[i].Fatal?
      decreases |handles| - listing.cursor
    {
      ghost var from := listing.cursor;
      var item := listing.Next();
      ghost var reached := listing.cursor;
      assert forall i :: 0 <= i < |handles| ==> listing.At(i) == os[i];
      if item.None? {
        FilteredAddNothing(os, from, reached);
        break;
      }
      match item.value {
        case Ok(info) =>
          OneMore(os, from, reached);
          objects := objects + [info];
        case Err(error) =>
          if error.skippable {
            OneMore(os, from, reached);
            skipped := skipped + [SkippedObject(error.handle, error.source)];
          } else {
            ghost var n :| from <= n < |handles| && listing.At(n) == Fatal(error.handle, error.source)
                           && forall i :: from <= i < n ==> listing.At(i).Filtered?;
            FatalIsFirst(os, n);
            return Err(error.source);
          }
      }
    }
    FatalIsFirst(os, |os|);
    assert os[..|os|] == os;
    if objects == [] && skipped != [] {
      return Err(skipped[0].error);
    }
    return Ok(ObjectCollection(objects, skipped));
  }

  lemma {:induction false} CollectedAre(os: seq<Outcome>)
    ensures forall info :: info in Readables(os) <==> Readable(info) in os
    ensures forall h, e :: SkippedObject(h, e) in Skips(os) <==> Skipped(h, e) in os
  {
    if os != [] {
      CollectedAre(os[..|os| - 1]);
      assert os == os[..|os| - 1] + [os[|os| - 1]];
    }
  }

  /** A read about one object alone that failed: the device's general error on its metadata. */
  ghost predicate IsBadObject(r: Result<ObjectInfo, PtpError>) { r == Err(Protocol(0x2002, 0x1008)) }

  /** Read, and of the folder. */
  ghost predicate IsFound(r: Result<ObjectInfo, PtpError>, filter: ParentFilter) { r.Ok? && filter.Accepts(r.value.parent) }

  /**
   A folder read to the end, by the device's own replies: it succeeds exactly when nothing was
   cancelled, no read failed but for objects the device can't describe, and of those none was without
   an object beside it; then it holds exactly the objects found, under their handles, and those skips.
   */
  lemma {:induction false} CollectionIsExact(
    handles: seq<Handle>, filter: ParentFilter, read: nat -> Result<ObjectInfo, PtpError>, cancelled: nat -> bool)
    ensures var r := Collected(Outcomes(handles, filter, read, cancelled));
            && (r.Ok? <==>
                && (forall i :: 0 <= i < |handles| ==> !cancelled(i) && (read(i).Ok? || IsBadObject(read(i))))
                && ((exists i :: 0 <= i < |handles| && IsFound(read(i), filter))
                    || forall i :: 0 <= i < |handles| ==> read(i).Ok?))
            && (r.Ok? ==> forall o :: o in r.value.objects <==>
                            exists i :: 0 <= i < |handles| && IsFound(read(i), filter) && o == read(i).value.(handle := handles[i]))
            && (r.Ok? ==> forall h, e :: SkippedObject(h, e) in r.value.skipped <==>
                            exists i :: 0 <= i < |handles| && IsBadObject(read(i)) && h == handles[i] && read(i) == Err(e))
  {
    hide Outcomes, Visit, Collected, Readables, Skips, ParentFilter.Accepts, IsFound, IsBadObject;
    var os := Outcomes(handles, filter, read, cancelled);
    forall i | 0 <= i < |os|
      ensures os[i] in os
      ensures os[i].Fatal? <==> cancelled(i) || !(read(i).Ok? || IsBadObject(read(i)))
      ensures !os[i].Fatal? ==> (os[i].Skipped? <==> IsBadObject(read(i))) && (os[i].Readable? <==> IsFound(read(i), filter))
      ensures os[i].Readable? ==> read(i).Ok? && os[i].info == read(i).value.(handle := handles[i])
      ensures os[i].Skipped? ==> os[i].handle == handles[i] && read(i) == Err(os[i].error)
      ensures read(i).Ok? ==> !IsBadObject(read(i))
    {
      VisitIsExact(handles[i], filter, cancelled(i), read(i));
    }
    CollectedIsOk(os);
  }

  lemma {:induction false} VisitIsExact(h: Handle, filter: ParentFilter, cancelled: bool, read: Result<ObjectInfo, PtpError>)
    ensures var o := Visit(h, filter, cancelled, read);
            && (o.Fatal? <==> cancelled || !(read.Ok? || IsBadObject(read)))
            && (!o.Fatal? ==> (o.Skipped? <==> IsBadObject(read)) && (o.Readable? <==> IsFound(read, filter)))
            && (o.Readable? ==> read.Ok? && o.info == read.value.(handle := h))
            && (o.Skipped? ==> o.handle == h && read == Err(o.error))
            && (read.Ok? ==> !IsBadObject(read))
  {
  }

  lemma {:induction false} CollectedIsOk(os: seq<Outcome>)
    ensures Collected(os).Ok? <==>
            && (forall i :: 0 <= i < |os| ==> !os[i].Fatal?)
            && ((exists i :: 0 <= i < |os| && os[i].Readable?) || forall i :: 0 <= i < |os| ==> !os[i].Skipped?)
    ensures Collected(os).Ok? ==>
              && (forall o :: o in Collected(os).value.objects <==> exists i :: 0 <= i < |os| && os[i] == Readable(o))
              && (forall h, e :: SkippedObject(h, e) in Collected(os).value.skipped <==>
                                 exists i :: 0 <= i < |os| && os[i] == Skipped(h, e))
  {
    CollectedAre(os);
    hide Readables, Skips, FirstFatal;
    if forall i :: 0 <= i < |os| ==> !os[i].Fatal? {
      FatalIsFirst(os, |os|);
    } else {
      FatalIsFound(os);
    }
    if Readables(os) != [] {
      assert Readables(os)[0] in Readables(os);
    }
    if Skips(os) != [] {
      var s := Skips(os)[0];
      assert SkippedObject(s.handle, s.error) in Skips(os);
    }
    forall i | 0 <= i < |os| ensures os[i].Readable? ==> Readables(os) != [] {
      assert os[i].Readable? ==> os[i].info in Readables(os);
    }
    forall i | 0 <= i < |os| ensures os[i].Skipped? ==> Skips(os) != [] {
      assert os[i].Skipped? ==> SkippedObject(os[i].handle, os[i].error) in Skips(os);
    }
  }

  lemma {:induction false} FatalIsFound(os: seq<Outcome>)
    requires exists i :: 0 <= i < |os| && os[i].Fatal?
    ensures FirstFatal(os).Some?
  {
    if !os[0].Fatal? {
      var i :| 0 <= i < |os| && os[i].Fatal?;
      assert os[1..][i - 1] == os[i];
      FatalIsFound(os[1..]);
    }
  }

  // --- Every handle is accounted for ---

  function HandleOf(o: Outcome): Handle { if o.Readable? then o.info.handle else o.handle }

  function Handles(os: seq<Outcome>): seq<Handle> {
    if os == [] then [] else Handles(os[..|os| - 1]) + [HandleOf(os[|os| - 1])]
  }

  function ObjectHandles(infos: seq<ObjectInfo>): seq<Handle> {
    if infos == [] then [] else ObjectHandles(infos[..|infos| - 1]) + [infos[|infos| - 1].handle]
  }

  function SkipHandles(skips: seq<SkippedObject>): seq<Handle> {
    if skips == [] then [] else SkipHandles(skips[..|skips| - 1]) + [skips[|skips| - 1].handle]
  }

  datatype Kind = IsReadable | IsFiltered | IsSkipped | IsFatal

  function KindOf(o: Outcome): Kind {
    match o
    case Readable(_) => IsReadable
    case Filtered(_) => IsFiltered
    case Skipped(_, _) => IsSkipped
    case Fatal(_, _) => IsFatal
  }

  /** The handles of the outcomes of one kind. */
  function HandlesOfKind(os: seq<Outcome>, k: Kind): seq<Handle> {
    if os == [] then []
    else HandlesOfKind(os[..|os| - 1], k) + (if KindOf(os[|os| - 1]) == k then [HandleOf(os[|os| - 1])] else [])
  }

  /** `a` is `b` with some elements left out, in the same order. */
  ghost predicate Within<T>(a: seq<T>, b: seq<T>) {
    a == [] ||
    (b != [] && (Within(a, b[..|b| - 1])
                 || (a[|a| - 1] == b[|b| - 1] && Within(a[..|a| - 1], b[..|b| - 1]))))
  }

  lemma {:induction false} KindIsWithin(os: seq<Outcome>, k: Kind)
    ensures Within(HandlesOfKind(os, k), Handles(os))
  {
    if os != [] {
      var n := |os| - 1;
      KindIsWithin(os[..n], k);
      assert Handles(os)[..|Handles(os)| - 1] == Handles(os[..n]);
      if KindOf(os[n]) == k {
        assert HandlesOfKind(os, k)[..|HandlesOfKind(os, k)| - 1] == HandlesOfKind(os[..n], k);
      } else {
        assert HandlesOfKind(os, k) == HandlesOfKind(os[..n], k);
      }
    }
  }

  lemma {:induction false} KindsPartition(os: seq<Outcome>)
    requires forall i :: 0 <= i < |os| ==> !os[i].Fatal?
    ensures multiset(Handles(os)) ==
            multiset(HandlesOfKind(os, IsReadable)) + multiset(HandlesOfKind(os, IsSkipped))
            + multiset(HandlesOfKind(os, IsFiltered))
  {
    if os != [] {
      KindsPartition(os[..|os| - 1]);
    }
  }

  lemma {:induction false} ReportsAreKinds(os: seq<Outcome>)
    ensures ObjectHandles(Readables(os)) == HandlesOfKind(os, IsReadable)
    ensures SkipHandles(Skips(os)) == HandlesOfKind(os, IsSkipped)
  {
    if os != [] {
      var n := |os| - 1;
      ReportsAreKinds(os[..n]);
      assert os[n].Readable? ==> Readables(os)[..|Readables(os)| - 1] == Readables(os[..n]);
      assert !os[n].Readable? ==> Readables(os) == Readables(os[..n]);
      assert os[n].Skipped? ==> Skips(os)[..|Skips(os)| - 1] == Skips(os[..n]);
      assert !os[n].Skipped? ==> Skips(os) == Skips(os[..n]);
    }
  }

  /** Every outcome is about the handle it was visited for. */
  lemma {:induction false} VisitKeepsHandle(h: Handle, filter: ParentFilter, cancelled: bool, read: Result<ObjectInfo, PtpError>)
    ensures HandleOf(Visit(h, filter, cancelled, read)) == h
  {
  }

  lemma {:induction false} HandlesAreListed(handles: seq<Handle>, os: seq<Outcome>)
    requires |os| == |handles| && forall i :: 0 <= i < |os| ==> HandleOf(os[i]) == handles[i]
    ensures Handles(os) == handles
  {
    hide HandleOf;
    if os != [] {
      var n := |os| - 1;
      HandlesAreListed(handles[..n], os[..n]);
      assert handles == handles[..n] + [handles[n]];
    }
  }

  /**
   A collection that is Ok accounts for every enumerated handle, in order, as readable, skipped or
   filtered, and never reports skips without any object.
   */
  lemma {:induction false} CollectionPartitions(
    handles: seq<Handle>, filter: ParentFilter, read: nat -> Result<ObjectInfo, PtpError>, cancelled: nat -> bool)
    requires Collected(Outcomes(handles, filter, read, cancelled)).Ok?
    ensures var os := Outcomes(handles, filter, read, cancelled);
            var c := Collected(os).value;
            && multiset(handles) ==
               multiset(ObjectHandles(c.objects)) + multiset(SkipHandles(c.skipped)) + multiset(HandlesOfKind(os, IsFiltered))
            && Within(ObjectHandles(c.objects), handles)
            && Within(SkipHandles(c.skipped), handles)
            && Within(HandlesOfKind(os, IsFiltered), handles)
            && (c.skipped != [] ==> c.objects != [])
  {
    hide Outcomes, Visit, Handles, HandlesOfKind, Readables, Skips, FirstFatal, Within;
    var os := Outcomes(handles, filter, read, cancelled);
    forall i | 0 <= i < |os| ensures HandleOf(os[i]) == handles[i] {
      VisitKeepsHandle(handles[i], filter, cancelled(i), read(i));
    }
    HandlesAreListed(handles, os);
    NoneIsFatal(os);
    KindsPartition(os);
    ReportsAreKinds(os);
    KindIsWithin(os, IsReadable);
    KindIsWithin(os, IsSkipped);
    KindIsWithin(os, IsFiltered);
  }

  lemma {:induction false} NoneIsFatal(os: seq<Outcome>)
    requires FirstFatal(os) == None
    ensures forall i :: 0 <= i < |os| ==> !os[i].Fatal?
  {
    if os != [] {
      NoneIsFatal(os[1..]);
      forall i | 0 <= i < |os| ensures !os[i].Fatal? {
        assert i > 0 ==> os[i] == os[1..][i - 1];
      }
    }
  }

  // --- The root listing ---

  /** An object on a storage, and whether it truly lies in the root. */
  datatype Stored = Stored(info: ObjectInfo, inRoot: bool)

  /** A root object's parent as devices spell it. */
  predicate IsRootSpelling(p: Handle, storage: StorageId) { p == ROOT || p == ALL || p == storage }

  /** A storage's objects: real handles, roots spelled one of the three ways, others under a real object. */
  ghost predicate IsStorage(objs: map<Handle, Stored>, storage: StorageId) {
    && ROOT !in objs && ALL !in objs
    && (forall h :: h in objs ==> objs[h].info.handle == h)
    && (forall h :: h in objs && objs[h].inRoot ==> IsRootSpelling(objs[h].info.parent, storage))
    && (forall h :: h in objs && !objs[h].inRoot ==> objs[h].info.parent in objs)
  }

  /** A device's answer to the all-handles request: the root objects, or every object, in any order. */
  ghost predicate IsAllAnswer(objs: map<Handle, Stored>, handles: seq<Handle>) {
    && (forall i :: 0 <= i < |handles| ==> handles[i] in objs)
    && (forall h :: h in objs && objs[h].inRoot ==> h in handles)
    && ((forall i :: 0 <= i < |handles| ==> objs[handles[i]].inRoot) || (forall h :: h in objs ==> h in handles))
  }

  /** The root objects among `handles`, in that order. */
  ghost function RootObjects(objs: map<Handle, Stored>, handles: seq<Handle>): seq<ObjectInfo>
    requires forall i :: 0 <= i < |handles| ==> handles[i] in objs
  {
    if handles == [] then []
    else
      var n := |handles| - 1;
      RootObjects(objs, handles[..n]) + (if objs[handles[n]].inRoot then [objs[handles[n]].info] else [])
  }

  /** What a listing yields when every read gives the stored object and nothing is cancelled. */
  ghost function Listed(objs: map<Handle, Stored>, handles: seq<Handle>, filter: ParentFilter): seq<Outcome>
    requires forall i :: 0 <= i < |handles| ==> handles[i] in objs
  {
    seq(|handles|, i requires 0 <= i < |handles| => Visit(handles[i], filter, false, Ok(objs[handles[i]].info)))
  }

  /** One more handle adds its object if the filter accepts it. */
  lemma {:induction false} ListedGrows(objs: map<Handle, Stored>, handles: seq<Handle>, filter: ParentFilter)
    requires handles != [] && forall i :: 0 <= i < |handles| ==> handles[i] in objs
    requires var h := handles[|handles| - 1]; objs[h].info.handle == h
    ensures var n := |handles| - 1;
            var o := objs[handles[n]];
            && Readables(Listed(objs, handles, filter)) ==
               Readables(Listed(objs, handles[..n], filter)) + (if filter.Accepts(o.info.parent) then [o.info] else [])
            && RootObjects(objs, handles) == RootObjects(objs, handles[..n]) + (if o.inRoot then [o.info] else [])
  {
    hide RootObjects;
    var n := |handles| - 1;
    var os, o := Listed(objs, handles, filter), objs[handles[n]];
    assert os[..n] == Listed(objs, handles[..n], filter);
    assert o.info.(handle := handles[n]) == o.info;
    assert os[n] == if filter.Accepts(o.info.parent) then Readable(o.info) else Filtered(handles[n]);
    RootsGrow(objs, handles);
  }

  lemma {:induction false} RootsGrow(objs: map<Handle, Stored>, handles: seq<Handle>)
    requires handles != [] && forall i :: 0 <= i < |handles| ==> handles[i] in objs
    ensures var n := |handles| - 1;
            RootObjects(objs, handles) ==
            RootObjects(objs, handles[..n]) + (if objs[handles[n]].inRoot then [objs[handles[n]].info] else [])
  {
  }

  lemma {:induction false} SameAppended<T>(a: seq<T>, b: seq<T>, x: seq<T>, y: seq<T>)
    requires |a| <= |b| && |x| <= |y| && (x != [] ==> x == y)
    ensures a + x == b + y <==> a == b && x == y
  {
    if a + x == b + y {
      assert |a| == |b| && |x| == |y|;
      assert a == (a + x)[..|a|] && b == (b + y)[..|a|];
    }
  }

  /** The listing keeps the roots exactly when the filter accepts a root and refuses anything else. */
  lemma {:induction false} FilterDecides(objs: map<Handle, Stored>, handles: seq<Handle>, filter: ParentFilter)
    requires forall i :: 0 <= i < |handles| ==> handles[i] in objs && objs[handles[i]].info.handle == handles[i]
    requires forall i :: 0 <= i < |handles| ==> filter.Accepts(objs[handles[i]].info.parent) ==> objs[handles[i]].inRoot
    ensures |Readables(Listed(objs, handles, filter))| <= |RootObjects(objs, handles)|
    ensures Readables(Listed(objs, handles, filter)) == RootObjects(objs, handles) <==>
            forall i :: 0 <= i < |handles| && objs[handles[i]].inRoot ==> filter.Accepts(objs[handles[i]].info.parent)
  {
    if handles == [] {
      assert Listed(objs, handles, filter) == [];
    } else {
      hide Readables, Listed, RootObjects, Visit, ParentFilter.Accepts;
      var n := |handles| - 1;
      var shorter, o := handles[..n], objs[handles[n]];
      FilterDecides(objs, shorter, filter);
      ListedGrows(objs, handles, filter);
      assert forall i :: 0 <= i < n ==> shorter[i] == handles[i];
      SameAppended(
        Readables(Listed(objs, shorter, filter)), RootObjects(objs, shorter),
        if filter.Accepts(o.info.parent) then [o.info] else [], if o.inRoot then [o.info] else []);
    }
  }

  /**
   The case the source documents: the storage ID is a listed handle, so it can't mark the root,
   yet some root object spells its parent that way.
   */
  ghost predicate Clashes(objs: map<Handle, Stored>, storage: StorageId, handles: seq<Handle>) {
    storage in handles && exists h :: h in objs && objs[h].inRoot && objs[h].info.parent == storage
  }

  ghost predicate AllSpellZero(objs: map<Handle, Stored>) {
    forall h :: h in objs && objs[h].inRoot ==> objs[h].info.parent == ROOT
  }

  /** The root filter keeps exactly the root objects, in handle order, but for that case. */
  lemma {:induction false} RootFilterIsExact(objs: map<Handle, Stored>, storage: StorageId, handles: seq<Handle>)
    requires IsStorage(objs, storage) && IsAllAnswer(objs, handles)
    ensures Readables(Listed(objs, handles, RootFilter(storage, handles))) == RootObjects(objs, handles)
       <==> !Clashes(objs, storage, handles)
  {
    hide Readables, Listed, RootObjects, Visit;
    var filter := RootFilter(storage, handles);
    forall i | 0 <= i < |handles| ensures filter.Accepts(objs[handles[i]].info.parent) ==> objs[handles[i]].inRoot {
      assert handles[i] in objs;
    }
    FilterDecides(objs, handles, filter);
    forall h | h in objs && objs[h].inRoot ensures exists i :: 0 <= i < |handles| && handles[i] == h {
      assert h in handles;
    }
  }

  /** Filtering for parent 0 is exact when every root object spells its parent 0, and only then. */
  lemma {:induction false} ZeroFilterIsExact(objs: map<Handle, Stored>, storage: StorageId, handles: seq<Handle>)
    requires IsStorage(objs, storage) && IsAllAnswer(objs, handles)
    ensures Readables(Listed(objs, handles, Exact(ROOT))) == RootObjects(objs, handles) <==> AllSpellZero(objs)
  {
    FilterDecides(objs, handles, Exact(ROOT));
    forall h | h in objs && objs[h].inRoot ensures exists i :: 0 <= i < |handles| && handles[i] == h {
    }
  }

  /** A storage with one object, in the root, that spells its parent as `parent`. */
  function LoneRoot(h: Handle, parent: Handle): map<Handle, Stored> {
    map[h := Stored(DefaultInfo(h).(parent := parent), true)]
  }

  /** The clash can happen: a root object at the storage ID's own value, named as its own parent, isn't listed. */
  lemma {:induction false} ClashExample(storage: StorageId)
    requires storage != ROOT && storage != ALL
    ensures var objs := LoneRoot(storage, storage);
            && IsStorage(objs, storage) && IsAllAnswer(objs, [storage]) && Clashes(objs, storage, [storage])
            && Readables(Listed(objs, [storage], RootFilter(storage, [storage]))) != RootObjects(objs, [storage])
  {
    hide Readables, Listed, RootObjects;
    var objs := LoneRoot(storage, storage);
    assert storage in objs && objs[storage].inRoot && objs[storage].info.parent == storage;
    RootFilterIsExact(objs, storage, [storage]);
  }

  /** Nor is a root object that spells its parent 0xFFFFFFFF, when the handles were asked for by parent 0. */
  lemma {:induction false} ZeroFilterExample(storage: StorageId, h: Handle)
    requires h != ROOT && h != ALL
    ensures var objs := LoneRoot(h, ALL);
            && IsStorage(objs, storage) && IsAllAnswer(objs, [h]) && !AllSpellZero(objs)
            && Readables(Listed(objs, [h], Exact(ROOT))) != RootObjects(objs, [h])
  {
    hide Readables, Listed, RootObjects;
    var objs := LoneRoot(h, ALL);
    assert h in objs && objs[h].inRoot && objs[h].info.parent == ALL;
    ZeroFilterIsExact(objs, storage, [h]);
  }

  type HandleAnswers = (nat, Handle) -> Result<seq<Handle>, PtpError>

  /** The device says no to the all-handles request; any other failure is not its answer. */
  predicate DeclinesAll(answer: HandleAnswers) {
    answer(0, ALL).Err? && (answer(0, ALL).error.Protocol? || answer(0, ALL).error.Io?)
  }

  /** It declines, and gives `handles` for parent 0. */
  predicate GivesByZero(answer: HandleAnswers, handles: seq<Handle>) {
    DeclinesAll(answer) && answer(1, ROOT) == Ok(handles)
  }

  /** It gives `handles` for the all-handles request, at once or when asked again after parent 0 is no handle to it. */
  predicate GivesByAll(answer: HandleAnswers, handles: seq<Handle>) {
    || answer(0, ALL) == Ok(handles)
    || (&& DeclinesAll(answer) && answer(2, ALL) == Ok(handles)
        && answer(1, ROOT).Err? && answer(1, ROOT).error.Protocol? && answer(1, ROOT).error.code == INVALID_OBJECT_HANDLE)
  }

  /**
   Whichever request the device answers, with its root objects or with every object, the root
   listing visits those handles and keeps exactly the root objects, in handle order: by the
   all-handles request unless the storage ID clashes, and by parent 0 if all roots spell it so.
   */
  lemma {:induction false} RootListingIsExact(answer: HandleAnswers, objs: map<Handle, Stored>, storage: StorageId, handles: seq<Handle>)
    requires IsStorage(objs, storage) && IsAllAnswer(objs, handles)
    requires GivesByAll(answer, handles) || GivesByZero(answer, handles)
    ensures var r := ResolveListing(answer, false, storage, None);
            && r.Ok? && r.value.0 == handles
            && (Readables(Listed(objs, handles, r.value.1)) == RootObjects(objs, handles) <==>
                if GivesByAll(answer, handles) then !Clashes(objs, storage, handles) else AllSpellZero(objs))
  {
    hide Readables, Listed, RootObjects, Clashes, AllSpellZero, IsStorage, IsAllAnswer, RootFilter;
    RootFilterIsExact(objs, storage, handles);
    ZeroFilterIsExact(objs, storage, handles);
  }

  /** What isn't the device's answer ends the listing: a failing session, a cancel, or a no that says nothing of the root. */
  lemma {:induction false} RootListingFails(answer: HandleAnswers, cancelled: bool, storage: StorageId)
    ensures var r := ResolveListing(answer, cancelled, storage, None);
            && (answer(0, ALL).Err? && !DeclinesAll(answer) ==> r == Err(answer(0, ALL).error))
            && (DeclinesAll(answer) && cancelled ==> r == Err(Cancelled))
            && (DeclinesAll(answer) && !cancelled && answer(1, ROOT).Err? ==>
                  if answer(1, ROOT).error.Protocol? && answer(1, ROOT).error.code == 0x2009
                  then answer(2, ALL).Err? ==> r == Err(answer(2, ALL).error)
                  else r == Err(answer(1, ROOT).error))
  {
  }

  /** A folder is asked for once, by its own handle, and whatever comes back stands. */
  lemma {:induction false} FolderIsAskedOnce(answer: HandleAnswers, cancelled: bool, storage: StorageId, folder: Handle)
    ensures var r := ResolveListing(answer, cancelled, storage, Some(folder));
            if cancelled then r == Err(Cancelled)
            else if answer(0, folder).Err? then r == Err(answer(0, folder).error)
            else r.Ok? && r.value.0 == answer(0, folder).value && forall p :: r.value.1.Accepts(p) <==> p == folder
  {
  }

  /** Where every read succeeds nothing is skipped or fatal: the collection is what the filter keeps. */
  lemma {:induction false} ListedIsCollected(objs: map<Handle, Stored>, handles: seq<Handle>, filter: ParentFilter)
    requires forall i :: 0 <= i < |handles| ==> handles[i] in objs
    ensures Skips(Listed(objs, handles, filter)) == []
    ensures Collected(Listed(objs, handles, filter)) == Ok(ObjectCollection(Readables(Listed(objs, handles, filter)), []))
  {
    hide Readables;
    var os := Listed(objs, handles, filter);
    if handles != [] {
      var n := |handles| - 1;
      ListedIsCollected(objs, handles[..n], filter);
      assert os[..n] == Listed(objs, handles[..n], filter);
    }
    FatalIsFirst(os, |os|);
  }
}
