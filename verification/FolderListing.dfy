/**
 Listing one folder, `list` in crates/mtp-rs/src/mtp/backend/usb.rs collected as in
 crates/mtp-rs/src/mtp/storage.rs: by property where that works, handle by handle where it doesn't.
 */
module FolderListing {
  import opened Common
  import opened FolderSnapshot
  import opened Listing
  import opened Objects
  import opened PropList
  import opened PropListSession

  lemma {:induction false} AlikeAcrossDates(a: ObjectInfo, b: ObjectInfo, o: ObjectInfo)
    requires DatesOnly(a, b) && Alike(a, o)
    ensures Alike(b, o)
  {
  }

  /** The folder's objects, once each: each has its like, and none is missing, extra or repeated. */
  ghost predicate ListsFolder(objects: seq<ObjectInfo>, objs: map<Handle, ObjectInfo>) {
    && DistinctHandles(objects)
    && (forall x :: x in objects ==> x.handle in objs && Alike(x, objs[x.handle]))
    && (forall h :: h in objs ==> exists x :: x in objects && x.handle == h)
  }

  /** An answer that serves the folder lists it, whatever dates were added. */
  lemma {:induction false} ServedListsFolder(
    es: seq<Element>, objs: map<Handle, ObjectInfo>, storage: StorageId, folder: Handle, listed: seq<ObjectInfo>)
    requires IsFolderContent(objs, storage, folder) && Serves(es, objs, folder)
    requires Judged(es, storage, folder).Ok? && AllDatesOnly(Judged(es, storage, folder).value, listed)
    ensures ListsFolder(listed, objs)
  {
    hide Judged, Serves, Alike, FirstSeen;
    ServedFolderIsListed(es, objs, storage, folder);
    var base := Judged(es, storage, folder).value;
    ChildrenAreDistinct(es, storage, folder);
    DatesKeepHandles(base, listed);
    forall x | x in listed ensures x.handle in objs && Alike(x, objs[x.handle]) {
      var k :| 0 <= k < |listed| && listed[k] == x;
      assert DatesOnly(base[k], x);
      AlikeAcrossDates(base[k], x, objs[base[k].handle]);
    }
    forall h | h in objs ensures exists x :: x in listed && x.handle == h {
      var k :| 0 <= k < |base| && base[k].handle == h;
      assert DatesOnly(base[k], listed[k]) && listed[k] in listed;
    }
  }

  lemma {:induction false} PerHandleListsFolder(
    handles: seq<Handle>, objs: map<Handle, ObjectInfo>, storage: StorageId, folder: Handle, os: seq<Outcome>)
    requires IsFolderContent(objs, storage, folder) && Enumerates(handles, objs) && |os| == |handles|
    requires forall i :: 0 <= i < |handles| ==> os[i] == Visit(handles[i], Exact(folder), false, Ok(objs[handles[i]]))
    ensures Collected(os).Ok? && ListsFolder(Collected(os).value.objects, objs)
  {
    hide Visit, Readables, Skips, FirstFatal;
    PerHandleListing(handles, objs, storage, folder, os);
    forall h | h in objs ensures exists x :: x in Readables(os) && x.handle == h {
      var i :| 0 <= i < |handles| && handles[i] == h;
      assert Readables(os)[i] in Readables(os);
    }
  }

  /** The device as it answers for this folder handle by handle. */
  datatype PerHandle = PerHandle(
    answer: (nat, Handle) -> Result<seq<Handle>, PtpError>,
    read: nat -> Result<ObjectInfo, PtpError>,
    cancelled: nat -> bool)

  /** What listing the folder handle by handle comes to. */
  function ByHandle(d: PerHandle, storage: StorageId, folder: Handle): Result<ObjectCollection, PtpError> {
    var (handles, filter) :- ResolveListing(d.answer, d.cancelled(0), storage, Some(folder));
    Collected(Outcomes(handles, filter, d.read, d.cancelled))
  }

  /** Handle by handle, the device enumerates the folder and reads each object as it is, uncancelled. */
  ghost predicate ReadsFolder(d: PerHandle, objs: map<Handle, ObjectInfo>, folder: Handle) {
    && d.answer(0, folder).Ok? && Enumerates(d.answer(0, folder).value, objs)
    && (forall i :: 0 <= i < |d.answer(0, folder).value| ==> d.read(i) == Ok(objs[d.answer(0, folder).value[i]]))
    && forall i: nat :: !d.cancelled(i)
  }

  /**
   Lists a folder. If the device's property answers, where they are usable, are true of the folder,
   then whichever path is taken, and whatever the session has learnt before, the listing is the
   folder: every object once, with its own parent, name, format and file size.
   */
  method ListFolder(
    session: Session, usePropList: bool, cancelled: nat -> bool, cancelledNow: bool, d: PerHandle, storage: StorageId,
    folder: Handle, ghost objs: map<Handle, ObjectInfo>
  ) returns (r: Result<ObjectCollection, PtpError>)
    requires session.Valid()
    modifies session
    ensures session.Valid() && Since(old(session.Now()), session.Now())
    ensures !usePropList || cancelledNow ==> session.Now() == old(session.Now())
    ensures cancelledNow ==> r == Err(Cancelled)
    ensures
      var tries := usePropList && !old(session.off);
      var fast := ByPropList(session.reply, cancelled, |old(session.asked)|, old(session.declined), storage, folder);
      !cancelledNow ==>
        r == if tries && fast.Err? then Err(fast.error)
             else if tries && fast.value.Some? then Ok(ObjectCollection(fast.value.value, []))
             else ByHandle(d, storage, folder)
    ensures
      var got := AskRequired(session.reply, cancelled, |old(session.asked)|, folder, 0);
      (&& IsFolderContent(objs, storage, folder) && ReadsFolder(d, objs, folder)
       && (got.Got? && Judged(got.elements, storage, folder).Ok? ==> Serves(got.elements, objs, folder))
       && r.Ok?)
      ==> ListsFolder(r.value.objects, objs)
    ensures IsFolderContent(objs, storage, folder) && ReadsFolder(d, objs, folder) && !cancelledNow ==>
              (r.Err? <==>
               && usePropList && !old(session.off)
               && ByPropList(
                    session.reply, cancelled, |old(session.asked)|, old(session.declined), storage, folder).Err?)
  {
    hide AskRequired, AddFrom, Judged, Serves, Visit, Collected, ListsFolder, AllDatesOnly, IsFolderContent;
    if cancelledNow {
      return Err(Cancelled);
    }
    if usePropList {
      ghost var got := AskRequired(session.reply, cancelled, |session.asked|, folder, 0);
      var fast :- session.ListByPropList(cancelled, storage, folder);
      if fast.Some? {
        if got.Got? && Judged(got.elements, storage, folder).Ok? && Serves(got.elements, objs, folder)
           && IsFolderContent(objs, storage, folder) {
          ServedListsFolder(got.elements, objs, storage, folder, fast.value);
        }
        return Ok(ObjectCollection(fast.value, []));
      }
    }
    var resolved :- ResolveListing(d.answer, d.cancelled(0), storage, Some(folder));
    var (handles, filter) := resolved;
    r := CollectIn(handles, filter, d.read, d.cancelled);
    if IsFolderContent(objs, storage, folder) && ReadsFolder(d, objs, folder) {
      PerHandleListsFolder(handles, objs, storage, folder, Outcomes(handles, filter, d.read, d.cancelled));
    }
  }

  /** The device gives `handles` for the root and reads each object as it is, uncancelled. */
  ghost predicate ShowsRoot(d: PerHandle, objs: map<Handle, Stored>, storage: StorageId, handles: seq<Handle>) {
    && IsStorage(objs, storage) && IsAllAnswer(objs, handles)
    && (GivesByAll(d.answer, handles) || GivesByZero(d.answer, handles))
    && (forall i :: 0 <= i < |handles| ==> d.read(i) == Ok(objs[handles[i]].info))
    && forall i: nat :: !d.cancelled(i)
  }

  /**
   Lists the root of a storage, always handle by handle. Shown a storage's objects it succeeds and
   skips nothing, and it gives exactly the root objects, in handle order, under the condition of
   `RootListingIsExact`.
   */
  method ListRoot(
    cancelledNow: bool, d: PerHandle, storage: StorageId, ghost objs: map<Handle, Stored>, ghost handles: seq<Handle>
  ) returns (r: Result<ObjectCollection, PtpError>)
    ensures cancelledNow ==> r == Err(Cancelled)
    ensures !cancelledNow && d.answer(0, ALL).Err? && !DeclinesAll(d.answer) ==> r == Err(d.answer(0, ALL).error)
    ensures !cancelledNow && DeclinesAll(d.answer) && d.cancelled(0) ==> r == Err(Cancelled)
    ensures !cancelledNow && ShowsRoot(d, objs, storage, handles) ==>
              && r.Ok? && r.value.skipped == []
              && (r.value.objects == RootObjects(objs, handles) <==>
                  if GivesByAll(d.answer, handles) then !Clashes(objs, storage, handles) else AllSpellZero(objs))
  {
    if cancelledNow {
      return Err(Cancelled);
    }
    if ShowsRoot(d, objs, storage, handles) {
      RootListingIsExact(d.answer, objs, storage, handles);
    }
    var resolved :- ResolveListing(d.answer, d.cancelled(0), storage, None);
    var (found, filter) := resolved;
    r := CollectIn(found, filter, d.read, d.cancelled);
    if ShowsRoot(d, objs, storage, handles) {
      assert Outcomes(found, filter, d.read, d.cancelled) == Listed(objs, handles, filter);
      ListedIsCollected(objs, handles, filter);
    }
  }
}
