/**
 The fast folder listing against the slow one: on one consistent folder, `GetObjectPropList` gives
 the objects that reading handle by handle gives.
 */
module FolderSnapshot {
  import opened Common
  import opened Objects
  import opened Listing
  import opened PropList

  /** What the element says of its object is what the object is; a folder's size may be anything. */
  predicate Agrees(e: Element, o: ObjectInfo) {
    Takes(e) ==>
      match e.property
      case ParentObject => e.value.value == Unsigned(o.parent)
      case ObjectFileName => e.value.value == Str(o.filename)
      case ObjectFormat => e.value.value == Unsigned(o.format)
      case ObjectSize => o.format == FORMAT_ASSOCIATION || e.value.value == Unsigned(o.size)
      case StorageID => e.value.value == Unsigned(o.storage)
      case _ => true
  }

  /** The objects of one folder on a storage, by handle. */
  ghost predicate IsFolderContent(objs: map<Handle, ObjectInfo>, storage: StorageId, parent: Handle) {
    && parent !in objs
    && forall h :: h in objs ==> objs[h].handle == h && objs[h].parent == parent && objs[h].storage == storage
  }

  /** The elements speak truly of the folder's objects, and serve each all it needs, in any order. */
  ghost predicate Serves(es: seq<Element>, objs: map<Handle, ObjectInfo>, parent: Handle) {
    && (forall i :: 0 <= i < |es| && es[i].handle != parent ==> es[i].handle in objs && Agrees(es[i], objs[es[i].handle]))
    && (forall h :: h in objs ==>
          && Given(es, h, ParentObject) && Given(es, h, ObjectFileName) && Given(es, h, ObjectFormat)
          && (objs[h].format != FORMAT_ASSOCIATION ==> Given(es, h, ObjectSize)))
  }

  /** Alike to a listing: same handle, storage, parent, name and format, and for a file the same size. */
  predicate Alike(a: ObjectInfo, b: ObjectInfo) {
    && a.handle == b.handle && a.storage == b.storage && a.parent == b.parent
    && a.filename == b.filename && a.format == b.format
    && (b.format != FORMAT_ASSOCIATION ==> a.size == b.size)
  }

  lemma {:induction false} AlikeBothWays(a: ObjectInfo, b: ObjectInfo)
    requires Alike(a, b)
    ensures Alike(b, a)
  {
  }

  /** Everything in `a` has its like in `b`. */
  ghost predicate EachHasAlike(a: seq<ObjectInfo>, b: seq<ObjectInfo>) {
    forall x :: x in a ==> exists y :: y in b && Alike(x, y)
  }

  /** Wherever a child holds a value, it is its object's own. */
  predicate HoldsTruth(c: Child, o: ObjectInfo) {
    && !c.info.genericFolder && (c.hasStorage ==> c.info.storage == o.storage)
    && (ParentObject in c.required ==> c.info.parent == o.parent)
    && (ObjectFileName in c.required ==> c.info.filename == o.filename)
    && (ObjectFormat in c.required ==> c.info.format == o.format)
    && (ObjectSize in c.required && o.format != FORMAT_ASSOCIATION ==> c.info.size == o.size)
  }

  lemma {:induction false} ChildIsTrue(es: seq<Element>, h: Handle, o: ObjectInfo)
    requires forall i :: 0 <= i < |es| && es[i].handle == h ==> Agrees(es[i], o)
    ensures HoldsTruth(ChildFor(es, h), o)
  {
    if es != [] {
      var n := |es| - 1;
      ChildIsTrue(es[..n], h, o);
      if es[n].handle == h {
        AbsorbsTruth(ChildFor(es[..n], h), es[n], o);
      }
    }
  }

  lemma {:induction false} AbsorbsTruth(c: Child, e: Element, o: ObjectInfo)
    requires HoldsTruth(c, o) && Agrees(e, o)
    ensures HoldsTruth(Absorb(c, e), o)
  {
  }

  /** So every child of a served folder is complete and alike to its object. */
  lemma {:induction false} ChildrenAreAlike(
    es: seq<Element>, objs: map<Handle, ObjectInfo>, storage: StorageId, parent: Handle, h: Handle)
    requires IsFolderContent(objs, storage, parent) && Serves(es, objs, parent) && h in objs
    ensures var c := ChildFor(es, h);
            && ParentObject in c.required && c.info.parent == parent
            && (forall p :: Needs(c, p) ==> p in c.required)
            && Alike(Finished(c, storage), objs[h])
  {
    hide ChildFor, Agrees, Takes;
    ChildIsTrue(es, h, objs[h]);
    ChildKeepsHandle(es, h);
    assert Given(es, h, ParentObject) && Given(es, h, ObjectFileName) && Given(es, h, ObjectFormat);
    assert objs[h].format != FORMAT_ASSOCIATION ==> Given(es, h, ObjectSize);
  }

  lemma {:induction false} SeenAreTheObjects(
    es: seq<Element>, objs: map<Handle, ObjectInfo>, storage: StorageId, parent: Handle, h: Handle)
    requires IsFolderContent(objs, storage, parent) && Serves(es, objs, parent)
    ensures h in FirstSeen(es, parent) <==> h in objs
  {
    hide ChildFor, FirstSeen, Agrees, Takes;
    if h != parent {
      UnseenIsNew(es, parent, h);
      if h in objs {
        assert Given(es, h, ParentObject);
      }
    }
  }

  lemma {:induction false} CompleteChildrenAreUsable(cs: seq<Child>, parent: Handle)
    requires forall k :: 0 <= k < |cs| ==> cs[k].info.parent == parent && forall p :: Needs(cs[k], p) ==> p in cs[k].required
    ensures !IsSystemic(cs, parent) && !IsIncomplete(cs)
  {
  }

  lemma {:induction false} ServedChildren(
    es: seq<Element>, objs: map<Handle, ObjectInfo>, storage: StorageId, parent: Handle, k: nat)
    requires IsFolderContent(objs, storage, parent) && Serves(es, objs, parent) && k < |Children(es, parent)|
    ensures var c, h := Children(es, parent)[k], FirstSeen(es, parent)[k];
            && h in objs && Alike(Finished(c, storage), objs[h])
            && c.info.parent == parent && forall p :: Needs(c, p) ==> p in c.required
  {
    hide ChildFor, FirstSeen, Serves, Needs;
    var h := FirstSeen(es, parent)[k];
    assert h in FirstSeen(es, parent);
    SeenAreTheObjects(es, objs, storage, parent, h);
    ChildrenAreAlike(es, objs, storage, parent, h);
  }

  /** The answer is usable, and its objects are the folder's, one each, alike. */
  lemma {:induction false} ServedFolderIsListed(es: seq<Element>, objs: map<Handle, ObjectInfo>, storage: StorageId, parent: Handle)
    requires IsFolderContent(objs, storage, parent) && Serves(es, objs, parent)
    ensures var r := Judged(es, storage, parent);
            && r.Ok? && |r.value| == |FirstSeen(es, parent)|
            && (forall k :: 0 <= k < |r.value| ==> r.value[k].handle in objs && Alike(r.value[k], objs[r.value[k].handle]))
            && (forall h :: h in objs ==> exists k :: 0 <= k < |r.value| && r.value[k].handle == h)
  {
    hide ChildFor, FirstSeen, Serves, Needs, IsSystemic, IsIncomplete, Children;
    var cs, hs := Children(es, parent), FirstSeen(es, parent);
    forall k | 0 <= k < |cs|
      ensures hs[k] in objs && Alike(Finished(cs[k], storage), objs[hs[k]])
      ensures cs[k].info.parent == parent && forall p :: Needs(cs[k], p) ==> p in cs[k].required
    {
      ServedChildren(es, objs, storage, parent, k);
    }
    CompleteChildrenAreUsable(cs, parent);
    var r := Judged(es, storage, parent).value;
    forall k | 0 <= k < |r| ensures r[k].handle == hs[k] && Alike(r[k], objs[hs[k]]) {
      assert hs[k] in objs;
    }
    forall h | h in objs ensures exists k :: 0 <= k < |r| && r[k].handle == h {
      SeenAreTheObjects(es, objs, storage, parent, h);
      var k :| 0 <= k < |hs| && hs[k] == h;
      assert r[k].handle == h;
    }
  }

  /** The folder's handles, each once, as the device enumerates them. */
  ghost predicate Enumerates(handles: seq<Handle>, objs: map<Handle, ObjectInfo>) {
    && (forall i :: 0 <= i < |handles| ==> handles[i] in objs)
    && (forall h :: h in objs ==> h in handles)
    && (forall i, j :: 0 <= i < j < |handles| ==> handles[i] != handles[j])
  }

  /** Reading handle by handle gives the objects themselves. */
  lemma {:induction false} PerHandleListing(
    handles: seq<Handle>, objs: map<Handle, ObjectInfo>, storage: StorageId, parent: Handle, os: seq<Outcome>)
    requires IsFolderContent(objs, storage, parent) && |os| == |handles|
    requires forall i :: 0 <= i < |handles| ==>
               handles[i] in objs && os[i] == Visit(handles[i], Exact(parent), false, Ok(objs[handles[i]]))
    ensures |Readables(os)| == |handles| && forall i :: 0 <= i < |handles| ==> Readables(os)[i] == objs[handles[i]]
    ensures Skips(os) == [] && FirstFatal(os) == None
  {
    if os != [] {
      var n := |os| - 1;
      PerHandleListing(handles[..n], objs, storage, parent, os[..n]);
      assert os[n] == Readable(objs[handles[n]]);
      FatalIsFirst(os, |os|);
    }
  }

  /**
   On one consistent folder both listings succeed, list every object exactly once, and agree on
   each object's parent, name, format and, for a file, size.
   */
  lemma {:induction false} PropListRefinesPerHandle(
    es: seq<Element>, handles: seq<Handle>, objs: map<Handle, ObjectInfo>, storage: StorageId, parent: Handle, os: seq<Outcome>)
    requires IsFolderContent(objs, storage, parent) && Serves(es, objs, parent) && Enumerates(handles, objs)
    requires |os| == |handles|
    requires forall i :: 0 <= i < |handles| ==> os[i] == Visit(handles[i], Exact(parent), false, Ok(objs[handles[i]]))
    ensures Judged(es, storage, parent).Ok? && Collected(os).Ok? && Collected(os).value.skipped == []
    ensures var fast, slow := Judged(es, storage, parent).value, Collected(os).value.objects;
            && |fast| == |slow| == |handles|
            && EachHasAlike(fast, slow) && EachHasAlike(slow, fast)
  {
    hide Alike, Judged, Serves, Visit, Readables, Skips, FirstFatal, FirstSeen;
    ServedFolderIsListed(es, objs, storage, parent);
    PerHandleListing(handles, objs, storage, parent, os);
    var fast, slow := Judged(es, storage, parent).value, Collected(os).value.objects;
    forall x | x in fast ensures exists y :: y in slow && Alike(x, y) {
      assert x.handle in handles;
      var i :| 0 <= i < |handles| && handles[i] == x.handle;
      assert slow[i] in slow && Alike(x, slow[i]);
    }
    forall y | y in slow ensures exists x :: x in fast && Alike(y, x) {
      var i :| 0 <= i < |slow| && slow[i] == y;
      assert handles[i] in objs;
      var k :| 0 <= k < |fast| && fast[k].handle == handles[i];
      AlikeBothWays(fast[k], y);
      assert fast[k] in fast && Alike(y, fast[k]);
    }
    forall h ensures h in FirstSeen(es, parent) <==> h in handles {
      SeenAreTheObjects(es, objs, storage, parent, h);
    }
    SameLength(FirstSeen(es, parent), handles);
  }

  /** Two sequences without repeats and with the same elements have the same length. */
  lemma {:induction false} SameLength(a: seq<Handle>, b: seq<Handle>)
    requires forall h :: h in a <==> h in b
    requires forall i, j :: 0 <= i < j < |a| ==> a[i] != a[j]
    requires forall i, j :: 0 <= i < j < |b| ==> b[i] != b[j]
    ensures |a| == |b|
  {
    DistinctCount(a);
    DistinctCount(b);
    assert Elements(a) == Elements(b);
  }

  ghost function Elements(a: seq<Handle>): set<Handle> { set h | h in a }

  lemma {:induction false} DistinctCount(a: seq<Handle>)
    requires forall i, j :: 0 <= i < j < |a| ==> a[i] != a[j]
    ensures |Elements(a)| == |a|
  {
    if a == [] {
      assert Elements(a) == {};
    } else {
      var n := |a| - 1;
      DistinctCount(a[..n]);
      assert a[n] !in Elements(a[..n]);
      assert Elements(a) == Elements(a[..n]) + {a[n]};
    }
  }
}
