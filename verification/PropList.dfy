/**
 Folding `GetObjectPropList` elements into a folder's children,
 crates/mtp-rs/src/mtp/backend/usb.rs: one object per handle, checked against what a listing needs.
 */
module PropList {
  import opened Common
  import opened Objects

  /** One property of one object; `None` when the value is one the library doesn't decode. */
  datatype Element = Element(handle: Handle, property: Property, value: Option<PropertyValue>)

  const REQUIRED: seq<Property> := [ParentObject, ObjectFileName, ObjectFormat, ObjectSize]

  datatype Unusable = Systemic | Incomplete

  /** A child under construction: `required` is the set the source keeps as bits. */
  datatype Child = Child(info: ObjectInfo, required: set<Property>, hasStorage: bool)

  function NewChild(h: Handle): Child { Child(DefaultInfo(h), {}, false) }

  /** The element's value is one its object takes. */
  predicate Takes(e: Element) { e.value.Some? && Fits(e.property, e.value.value) }

  function Absorb(c: Child, e: Element): Child {
    if !Takes(e) then c
    else
      Child(
        SetProperty(c.info, e.property, e.value.value),
        c.required + (if e.property in REQUIRED then {e.property} else {}),
        c.hasStorage || e.property == StorageID)
  }

  /** Size is not asked of folders. */
  predicate Needs(c: Child, p: Property) { p in REQUIRED && (p == ObjectSize ==> !c.info.IsFolder()) }

  // --- The fold, said per handle ---

  /** The handles other than `parent`, in the order they first appear. */
  function FirstSeen(es: seq<Element>, parent: Handle): (hs: seq<Handle>)
    ensures forall i, j :: 0 <= i < j < |hs| ==> hs[i] != hs[j]
    ensures parent !in hs
  {
    if es == [] then []
    else
      var n := |es| - 1;
      var hs := FirstSeen(es[..n], parent);
      if es[n].handle == parent || es[n].handle in hs then hs else hs + [es[n].handle]
  }

  /** Its order is that of first appearance: before any element of a later handle there is one of an earlier. */
  lemma {:induction false} FirstSeenIsInOrder(es: seq<Element>, parent: Handle, i: nat, j: nat, b: nat)
    requires i < j < |FirstSeen(es, parent)| && b < |es| && es[b].handle == FirstSeen(es, parent)[j]
    ensures exists a :: 0 <= a < b && es[a].handle == FirstSeen(es, parent)[i]
  {
    var n, hs := |es| - 1, FirstSeen(es, parent);
    var shorter := FirstSeen(es[..n], parent);
    if j < |shorter| && b < n {
      assert es[..n][b] == es[b];
      FirstSeenIsInOrder(es[..n], parent, i, j, b);
      var a :| 0 <= a < b && es[..n][a].handle == shorter[i];
      assert es[a].handle == hs[i];
    } else {
      assert shorter[i] in shorter && shorter[i] == hs[i];
      SeenBefore(es[..n], parent, hs[i]);
      var a :| 0 <= a < n && es[..n][a].handle == hs[i];
      assert es[a].handle == hs[i];
      if b < n {
        assert es[..n][b].handle == hs[j];
        SeenIsListed(es[..n], parent, b);
      }
    }
  }

  lemma {:induction false} SeenBefore(es: seq<Element>, parent: Handle, h: Handle)
    requires h in FirstSeen(es, parent)
    ensures exists a :: 0 <= a < |es| && es[a].handle == h
  {
    var n := |es| - 1;
    if h in FirstSeen(es[..n], parent) {
      SeenBefore(es[..n], parent, h);
      var a :| 0 <= a < n && es[..n][a].handle == h;
      assert es[a].handle == h;
    }
  }

  lemma {:induction false} SeenIsListed(es: seq<Element>, parent: Handle, b: nat)
    requires b < |es| && es[b].handle != parent
    ensures es[b].handle in FirstSeen(es, parent)
  {
    var n := |es| - 1;
    if b < n {
      SeenIsListed(es[..n], parent, b);
    }
  }

  /** The child that `h`'s own elements make, in their order. */
  function ChildFor(es: seq<Element>, h: Handle): Child {
    if es == [] then NewChild(h)
    else
      var n := |es| - 1;
      if es[n].handle == h then Absorb(ChildFor(es[..n], h), es[n]) else ChildFor(es[..n], h)
  }

  function Children(es: seq<Element>, parent: Handle): (cs: seq<Child>)
    ensures |cs| == |FirstSeen(es, parent)|
    ensures forall i :: 0 <= i < |cs| ==> cs[i] == ChildFor(es, FirstSeen(es, parent)[i])
  {
    var hs := FirstSeen(es, parent);
    seq(|hs|, i requires 0 <= i < |hs| => ChildFor(es, hs[i]))
  }

  // --- The verdict, said declaratively ---

  ghost predicate NamesOtherParent(cs: seq<Child>, parent: Handle) {
    exists c :: c in cs && ParentObject in c.required && c.info.parent != parent
  }

  ghost predicate SomeLack(cs: seq<Child>, p: Property) {
    exists c :: c in cs && Needs(c, p) && p !in c.required
  }

  /** `p` is missing from every child that needs it, and some child does. */
  ghost predicate AllLack(cs: seq<Child>, p: Property) {
    SomeLack(cs, p) && forall c :: c in cs && Needs(c, p) ==> p !in c.required
  }

  ghost predicate IsSystemic(cs: seq<Child>, parent: Handle) {
    NamesOtherParent(cs, parent) || exists p :: p in REQUIRED && AllLack(cs, p)
  }

  ghost predicate IsIncomplete(cs: seq<Child>) { exists p :: p in REQUIRED && SomeLack(cs, p) }

  function Finished(c: Child, storage: StorageId): ObjectInfo {
    if c.hasStorage then c.info else c.info.(storage := storage)
  }

  function FinishedAll(cs: seq<Child>, storage: StorageId): (r: seq<ObjectInfo>)
    ensures |r| == |cs| && forall i :: 0 <= i < |r| ==> r[i] == Finished(cs[i], storage)
  {
    seq(|cs|, i requires 0 <= i < |cs| => Finished(cs[i], storage))
  }

  /** The verdict on an answer: systemic, else incomplete, else its children in first-seen order. */
  ghost function Judged(es: seq<Element>, storage: StorageId, parent: Handle): Result<seq<ObjectInfo>, Unusable> {
    var cs := Children(es, parent);
    if IsSystemic(cs, parent) then Err(Systemic)
    else if IsIncomplete(cs) then Err(Incomplete)
    else Ok(FinishedAll(cs, storage))
  }

  // --- The source's algorithm ---

  /** The children built so far and where each handle's is. */
  ghost predicate Indexed(children: seq<Child>, index: map<Handle, nat>, es: seq<Element>, parent: Handle) {
    var hs := FirstSeen(es, parent);
    && |children| == |hs|
    && (forall i :: 0 <= i < |hs| ==> hs[i] in index && index[hs[i]] == i && children[i] == ChildFor(es, hs[i]))
    && (forall h :: h in index ==> h in hs)
  }

  lemma {:induction false} IndexStep(children: seq<Child>, index: map<Handle, nat>, es: seq<Element>, parent: Handle, e: Element)
    requires Indexed(children, index, es, parent)
    ensures e.handle == parent ==> Indexed(children, index, es + [e], parent)
    ensures e.handle != parent && e.handle in index ==>
              && index[e.handle] < |children|
              && Indexed(children[index[e.handle] := Absorb(children[index[e.handle]], e)], index, es + [e], parent)
    ensures e.handle != parent && e.handle !in index ==>
              Indexed(children + [Absorb(NewChild(e.handle), e)], index[e.handle := |children|], es + [e], parent)
  {
    hide Absorb;
    var hs, es' := FirstSeen(es, parent), es + [e];
    assert es'[..|es|] == es;
    if e.handle !in index {
      assert e.handle !in hs;
      if e.handle != parent {
        UnseenIsNew(es, parent, e.handle);
      }
    }
  }

  lemma {:induction false} UnseenIsNew(es: seq<Element>, parent: Handle, h: Handle)
    requires h != parent
    ensures h !in FirstSeen(es, parent) <==> forall i :: 0 <= i < |es| ==> es[i].handle != h
    ensures h !in FirstSeen(es, parent) ==> ChildFor(es, h) == NewChild(h)
  {
    if es != [] {
      UnseenIsNew(es[..|es| - 1], parent, h);
    }
  }

  method FoldElements(es: seq<Element>, parent: Handle) returns (children: seq<Child>)
    ensures children == Children(es, parent)
  {
    hide Absorb, ChildFor, FirstSeen, Indexed;
    children := [];
    var index: map<Handle, nat> := map[];
    NothingIndexed(parent);
    assert es[..0] == [];
    for k := 0 to |es|
      invariant Indexed(children, index, es[..k], parent)
    {
      var e := es[k];
      IndexStep(children, index, es[..k], parent, e);
      assert es[..k + 1] == es[..k] + [e];
      if e.handle != parent {
        if e.handle !in index {
          index := index[e.handle := |children|];
          children := children + [Absorb(NewChild(e.handle), e)];
        } else {
          var i := index[e.handle];
          children := children[i := Absorb(children[i], e)];
        }
      }
    }
    assert es[..|es|] == es;
    IndexedIsChildren(children, index, es, parent);
  }

  lemma {:induction false} NothingIndexed(parent: Handle)
    ensures Indexed([], map[], [], parent)
  {
  }

  lemma {:induction false} IndexedIsChildren(children: seq<Child>, index: map<Handle, nat>, es: seq<Element>, parent: Handle)
    requires Indexed(children, index, es, parent)
    ensures children == Children(es, parent)
  {
  }

  /** The children that need `p`, and those of them that lack it. */
  method Count(cs: seq<Child>, p: Property) returns (lacking: nat, needing: nat)
    requires p in REQUIRED
    ensures lacking > 0 <==> SomeLack(cs, p)
    ensures lacking > 0 && lacking == needing <==> AllLack(cs, p)
  {
    lacking, needing := 0, 0;
    for i := 0 to |cs|
      invariant lacking <= needing
      invariant lacking > 0 <==> exists k :: 0 <= k < i && Needs(cs[k], p) && p !in cs[k].required
      invariant lacking == needing <==> forall k :: 0 <= k < i && Needs(cs[k], p) ==> p !in cs[k].required
    {
      if Needs(cs[i], p) {
        if p !in cs[i].required {
          lacking := lacking + 1;
        }
        needing := needing + 1;
      }
    }
  }

  method ChildrenFromPropList(elements: seq<Element>, storage: StorageId, parent: Handle)
    returns (r: Result<seq<ObjectInfo>, Unusable>)
    ensures r == Judged(elements, storage, parent)
  {
    hide Children, SomeLack, AllLack;
    var children := FoldElements(elements, parent);
    var stray := false;
    for i := 0 to |children|
      invariant stray <==> exists k :: 0 <= k < i && ParentObject in children[k].required && children[k].info.parent != parent
    {
      if ParentObject in children[i].required && children[i].info.parent != parent {
        stray := true;
      }
    }
    if stray {
      return Err(Systemic);
    }
    var incomplete := false;
    for j := 0 to |REQUIRED|
      invariant incomplete <==> exists k :: 0 <= k < j && SomeLack(children, REQUIRED[k])
      invariant forall k :: 0 <= k < j ==> !AllLack(children, REQUIRED[k])
    {
      var lacking, needing := Count(children, REQUIRED[j]);
      if lacking > 0 && lacking == needing {
        assert REQUIRED[j] in REQUIRED;
        return Err(Systemic);
      }
      if lacking > 0 {
        incomplete := true;
      }
    }
    if incomplete {
      return Err(Incomplete);
    }
    return Ok(FinishedAll(children, storage));
  }

  // --- What an answer that stands in for a listing gives ---

  lemma {:induction false} ChildKeepsHandle(es: seq<Element>, h: Handle)
    ensures ChildFor(es, h).info.handle == h
    ensures forall p :: p in ChildFor(es, h).required <==>
                        p in REQUIRED && exists i :: 0 <= i < |es| && es[i].handle == h && es[i].property == p && Takes(es[i])
  {
    if es != [] {
      var n := |es| - 1;
      ChildKeepsHandle(es[..n], h);
      forall p | p in ChildFor(es, h).required
        ensures p in REQUIRED && exists i :: 0 <= i < |es| && es[i].handle == h && es[i].property == p && Takes(es[i])
      {
        if p in ChildFor(es[..n], h).required {
          var i :| 0 <= i < n && es[..n][i].handle == h && es[..n][i].property == p && Takes(es[..n][i]);
          assert es[i].handle == h && es[i].property == p && Takes(es[i]);
        }
      }
      forall p, i | p in REQUIRED && 0 <= i < |es| && es[i].handle == h && es[i].property == p && Takes(es[i])
        ensures p in ChildFor(es, h).required
      {
        if i < n {
          assert es[..n][i] == es[i];
        }
      }
    }
  }

  /** Some element gives `h` a usable value for `p`. */
  ghost predicate Given(es: seq<Element>, h: Handle, p: Property) {
    exists i :: 0 <= i < |es| && es[i].handle == h && es[i].property == p && Takes(es[i])
  }

  /** The i-th element is the last to give `h` a usable value for `p`. */
  ghost predicate IsLast(es: seq<Element>, h: Handle, p: Property, i: int) {
    && 0 <= i < |es| && es[i].handle == h && es[i].property == p && Takes(es[i])
    && forall j :: i < j < |es| && es[j].handle == h && es[j].property == p ==> !Takes(es[j])
  }

  /** What a field holds that no element gives. */
  function Unset(p: Property): FieldValue {
    match p
    case ObjectFileName => Name([])
    case DateCreated => Moment(None)
    case DateModified => Moment(None)
    case ObjectFormat => Number(0x3000)
    case OtherProperty(_) => NoField
    case _ => Number(0)
  }

  /** The field holds what the last element to give it says, or nothing. */
  ghost predicate HoldsLast(es: seq<Element>, h: Handle, p: Property, field: FieldValue) {
    && (forall i :: IsLast(es, h, p, i) ==> field == Said(p, es[i].value.value))
    && (!Given(es, h, p) ==> field == Unset(p))
  }

  lemma {:induction false} ChildHoldsLast(es: seq<Element>, h: Handle, p: Property)
    ensures HoldsLast(es, h, p, FieldOf(ChildFor(es, h).info, p))
    ensures ChildFor(es, h).hasStorage <==> Given(es, h, StorageID)
    ensures !ChildFor(es, h).info.genericFolder
  {
    if es != [] {
      var n := |es| - 1;
      var shorter, e := es[..n], es[n];
      ChildHoldsLast(shorter, h, p);
      GivenShortens(es, h, p);
      GivenShortens(es, h, StorageID);
      if e.handle == h && Takes(e) {
        SetPropertyWritesOneField(ChildFor(shorter, h).info, e.property, e.value.value);
      }
    }
  }

  /** The last element decides, if it is one; otherwise those before it do. */
  lemma {:induction false} GivenShortens(es: seq<Element>, h: Handle, p: Property)
    requires es != []
    ensures var n := |es| - 1;
            var mine := es[n].handle == h && es[n].property == p && Takes(es[n]);
            && (Given(es, h, p) <==> mine || Given(es[..n], h, p))
            && (forall i :: IsLast(es, h, p, i) <==> if mine then i == n else IsLast(es[..n], h, p, i))
            && (forall i :: IsLast(es[..n], h, p, i) ==> 0 <= i < n && es[..n][i] == es[i])
  {
    var n := |es| - 1;
    assert forall i :: 0 <= i < n ==> es[..n][i] == es[i];
    if Given(es[..n], h, p) {
      var i :| 0 <= i < n && es[..n][i].handle == h && es[..n][i].property == p && Takes(es[..n][i]);
      assert es[i].handle == h && es[i].property == p && Takes(es[i]);
    }
  }

  /** The storage is what the last element to give one says, and the listed one where none does. */
  ghost predicate HasStorage(es: seq<Element>, storage: StorageId, o: ObjectInfo) {
    && (forall i :: IsLast(es, o.handle, StorageID, i) ==> es[i].value == Some(Unsigned(o.storage)))
    && (!Given(es, o.handle, StorageID) ==> o.storage == storage)
  }

  /**
   An Ok verdict drops no handle but the folder's own, repeats none, keeps first-seen order, and
   gives every child the asked parent and every property it needs. Each field of a child is what the
   last of its own elements to give it says; the storage, where none does, is the one listed.
   */
  lemma {:induction false} AnswerIsComplete(es: seq<Element>, storage: StorageId, parent: Handle)
    requires Judged(es, storage, parent).Ok?
    ensures var r := Judged(es, storage, parent).value;
            && (forall i, j :: 0 <= i < j < |r| ==> r[i].handle != r[j].handle)
            && (forall i :: 0 <= i < |es| && es[i].handle != parent ==> exists k :: 0 <= k < |r| && r[k].handle == es[i].handle)
            && |r| == |FirstSeen(es, parent)|
            && (forall k :: 0 <= k < |r| ==>
                  && r[k].handle == FirstSeen(es, parent)[k] != parent && r[k].parent == parent
                  && Given(es, r[k].handle, ParentObject) && Given(es, r[k].handle, ObjectFileName)
                  && Given(es, r[k].handle, ObjectFormat)
                  && (!r[k].IsFolder() ==> Given(es, r[k].handle, ObjectSize))
                  && (forall p :: p != StorageID ==> HoldsLast(es, r[k].handle, p, FieldOf(r[k], p)))
                  && HasStorage(es, storage, r[k]))
  {
    hide ChildFor, FirstSeen, Children, Takes, Fits, HoldsLast, HasStorage, Given, Said;
    var r, cs, hs := Judged(es, storage, parent).value, Children(es, parent), FirstSeen(es, parent);
    forall k | 0 <= k < |r|
      ensures r[k].handle == hs[k] && r[k].parent == parent
      ensures Given(es, hs[k], ParentObject) && Given(es, hs[k], ObjectFileName) && Given(es, hs[k], ObjectFormat)
      ensures !r[k].IsFolder() ==> Given(es, hs[k], ObjectSize)
      ensures (forall p :: p != StorageID ==> HoldsLast(es, hs[k], p, FieldOf(r[k], p))) && HasStorage(es, storage, r[k])
    {
      ChildKeepsHandle(es, hs[k]);
      FinishedHolds(es, storage, hs[k]);
      GivenRequired(es, hs[k]);
      assert cs[k] in cs;
      assert forall p :: p in REQUIRED ==> !SomeLack(cs, p);
      assert ParentObject in REQUIRED && ObjectFileName in REQUIRED && ObjectFormat in REQUIRED && ObjectSize in REQUIRED;
    }
    forall i | 0 <= i < |es| && es[i].handle != parent ensures exists k :: 0 <= k < |r| && r[k].handle == es[i].handle {
      UnseenIsNew(es, parent, es[i].handle);
      var k :| 0 <= k < |hs| && hs[k] == es[i].handle;
      assert r[k].handle == es[i].handle;
    }
  }

  lemma {:induction false} GivenRequired(es: seq<Element>, h: Handle)
    ensures forall p :: p in ChildFor(es, h).required <==> p in REQUIRED && Given(es, h, p)
  {
    hide ChildFor;
    ChildKeepsHandle(es, h);
  }

  /** Finishing a child fills in the storage, and nothing else. */
  lemma {:induction false} FinishedHolds(es: seq<Element>, storage: StorageId, h: Handle)
    ensures var o := Finished(ChildFor(es, h), storage);
            && (forall p :: p != StorageID ==> HoldsLast(es, h, p, FieldOf(o, p)))
            && HasStorage(es, storage, o)
  {
    hide ChildFor, HoldsLast;
    ChildKeepsHandle(es, h);
    var o := Finished(ChildFor(es, h), storage);
    forall p | p != StorageID ensures HoldsLast(es, h, p, FieldOf(o, p)) {
      ChildHoldsLast(es, h, p);
    }
    StorageHolds(es, storage, h);
  }

  lemma {:induction false} StorageHolds(es: seq<Element>, storage: StorageId, h: Handle)
    ensures HasStorage(es, storage, Finished(ChildFor(es, h), storage))
  {
    hide ChildFor;
    ChildKeepsHandle(es, h);
    ChildHoldsLast(es, h, StorageID);
  }

  // --- Interleaving ---

  /** `h`'s own elements, in order. */
  function Own(es: seq<Element>, h: Handle): seq<Element> {
    if es == [] then []
    else Own(es[..|es| - 1], h) + (if es[|es| - 1].handle == h then [es[|es| - 1]] else [])
  }

  lemma {:induction false} ChildIsFromOwn(es: seq<Element>, h: Handle)
    ensures ChildFor(es, h) == ChildFor(Own(es, h), h)
    ensures Own(es, h) == [] <==> forall i :: 0 <= i < |es| ==> es[i].handle != h
  {
    if es != [] {
      var n := |es| - 1;
      ChildIsFromOwn(es[..n], h);
      if es[n].handle == h {
        assert Own(es, h)[..|Own(es, h)| - 1] == Own(es[..n], h);
      } else {
        assert Own(es, h) == Own(es[..n], h);
      }
    }
  }

  /** The same elements, in an order that keeps each handle's own. */
  ghost predicate SameByHandle(a: seq<Element>, b: seq<Element>) { forall h: Handle :: Own(a, h) == Own(b, h) }

  lemma {:induction false} SameChildren(a: seq<Element>, b: seq<Element>, parent: Handle, c: Child)
    requires SameByHandle(a, b) && c in Children(a, parent)
    ensures c in Children(b, parent)
  {
    hide ChildFor, FirstSeen, Own;
    var i :| 0 <= i < |Children(a, parent)| && Children(a, parent)[i] == c;
    var h := FirstSeen(a, parent)[i];
    ChildIsFromOwn(a, h);
    ChildIsFromOwn(b, h);
    UnseenIsNew(a, parent, h);
    UnseenIsNew(b, parent, h);
    assert Own(a, h) == Own(b, h);
    var j :| 0 <= j < |FirstSeen(b, parent)| && FirstSeen(b, parent)[j] == h;
    assert Children(b, parent)[j] == c;
  }

  /** However the elements of different objects interleave, the verdict and the objects are the same. */
  lemma {:induction false} InterleavingIsIrrelevant(a: seq<Element>, b: seq<Element>, storage: StorageId, parent: Handle)
    requires SameByHandle(a, b)
    ensures var ra, rb := Judged(a, storage, parent), Judged(b, storage, parent);
            && ra.Ok? == rb.Ok? && (ra.Err? ==> ra == rb)
            && (ra.Ok? ==> forall o :: o in ra.value <==> o in rb.value)
  {
    hide Children;
    var ca, cb := Children(a, parent), Children(b, parent);
    forall c ensures c in ca <==> c in cb {
      if c in ca {
        SameChildren(a, b, parent, c);
      }
      if c in cb {
        SameChildren(b, a, parent, c);
      }
    }
    SameVerdict(ca, cb, parent);
    if Judged(a, storage, parent).Ok? {
      FinishedSame(ca, cb, storage);
    }
  }

  lemma {:induction false} SameVerdict(ca: seq<Child>, cb: seq<Child>, parent: Handle)
    requires forall c :: c in ca <==> c in cb
    ensures IsSystemic(ca, parent) == IsSystemic(cb, parent) && IsIncomplete(ca) == IsIncomplete(cb)
  {
  }

  lemma {:induction false} FinishedSame(ca: seq<Child>, cb: seq<Child>, storage: StorageId)
    requires forall c :: c in ca <==> c in cb
    ensures forall o :: o in FinishedAll(ca, storage) <==> o in FinishedAll(cb, storage)
  {
    hide Finished;
    forall o | o in FinishedAll(ca, storage) ensures o in FinishedAll(cb, storage) {
      var i :| 0 <= i < |FinishedAll(ca, storage)| && FinishedAll(ca, storage)[i] == o;
      assert ca[i] in cb;
      var j :| 0 <= j < |cb| && cb[j] == ca[i];
      assert FinishedAll(cb, storage)[j] == o;
    }
    forall o | o in FinishedAll(cb, storage) ensures o in FinishedAll(ca, storage) {
      var i :| 0 <= i < |FinishedAll(cb, storage)| && FinishedAll(cb, storage)[i] == o;
      assert cb[i] in ca;
      var j :| 0 <= j < |ca| && ca[j] == cb[i];
      assert FinishedAll(ca, storage)[j] == o;
    }
  }
}
