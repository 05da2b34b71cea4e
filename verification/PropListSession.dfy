/**
 Folder listings by `GetObjectPropList` over one session, crates/mtp-rs/src/mtp/backend/usb.rs:
 one request per property, and what the device has shown it can't do, remembered.

 `reply(n, f, p)` is the device's reply to the n-th request, for property `p` under folder `f`. Each
 listing has its own cancel token: `cancelled(n)` is its state when the n-th request is about to be sent.
 */
module PropListSession {
  import opened Common
  import opened Listing
  import opened Objects
  import opened PropList

  const OPTIONAL: seq<Property> := [DateModified, DateCreated]

  /** What comes back: a dataset, one that doesn't parse, or an error. */
  datatype Reply = Dataset(elements: seq<Element>) | Garbled | Failure(error: PtpError)

  datatype Answer = Elements(elements: seq<Element>) | Declined | Refused | Unparseable

  /** The device can't serve the request at all, whatever the folder. */
  predicate IsCapabilityDecline(e: PtpError) {
    e.Io? || (e.Protocol? && e.code in {0x2005, 0x2006, 0xA801, 0xA802, 0xA807, 0xA808})
  }

  /** The device saying no and a dataset that doesn't parse are answers; a failing session is not. */
  function AnswerOf(r: Reply): Result<Answer, PtpError> {
    match r
    case Dataset(es) => Ok(Elements(es))
    case Garbled => Ok(Unparseable)
    case Failure(e) =>
      if IsCapabilityDecline(e) then Ok(Declined) else if IsRejection(e) then Ok(Refused) else Err(e)
  }

  /** What asking for the required properties comes to. */
  datatype Required = Got(elements: seq<Element>) | TurnedOff | FellBack | Broken(error: PtpError)

  /** What is gathered before the i-th request goes in front of what the rest gives. */
  function Prefixed(es: seq<Element>, rest: Required): Required {
    if rest.Got? then Got(es + rest.elements) else rest
  }

  /** The required requests from the i-th on, when `n` requests have been sent before the first. */
  function AskRequired(
    reply: (nat, Handle, Property) -> Reply, cancelled: nat -> bool, n: nat, folder: Handle, i: nat
  ): Required
    requires i <= |REQUIRED|
    decreases |REQUIRED| - i
  {
    if i == |REQUIRED| then Got([])
    else if cancelled(n + i) then Broken(Cancelled)
    else
      match AnswerOf(reply(n + i, folder, REQUIRED[i]))
      case Err(e) => Broken(e)
      case Ok(Declined) => TurnedOff
      case Ok(Unparseable) => TurnedOff
      case Ok(Refused) => FellBack
      case Ok(Elements(es)) =>
        Prefixed(es, AskRequired(reply, cancelled, n, folder, i + 1))
  }

  /** The required requests before the i-th give datasets, and the i-th, uncancelled, doesn't. */
  ghost predicate StopsAt(
    reply: (nat, Handle, Property) -> Reply, cancelled: nat -> bool, n: nat, folder: Handle, i: nat) {
    && i < |REQUIRED| && GivesData(reply, cancelled, n, folder, i)
    && !cancelled(n + i) && !reply(n + i, folder, REQUIRED[i]).Dataset?
  }

  /** The token stops the listing before its i-th required request. */
  ghost predicate CancelledAt(
    reply: (nat, Handle, Property) -> Reply, cancelled: nat -> bool, n: nat, folder: Handle, i: nat) {
    i < |REQUIRED| && GivesData(reply, cancelled, n, folder, i) && cancelled(n + i)
  }

  /** The first `i` required requests go out and give datasets. */
  ghost predicate GivesData(
    reply: (nat, Handle, Property) -> Reply, cancelled: nat -> bool, n: nat, folder: Handle, i: nat) {
    forall j: nat :: j < i <= |REQUIRED| ==> IsData(reply, cancelled, n, folder, j)
  }

  ghost predicate IsData(
    reply: (nat, Handle, Property) -> Reply, cancelled: nat -> bool, n: nat, folder: Handle, j: nat)
    requires j < |REQUIRED|
  {
    !cancelled(n + j) && reply(n + j, folder, REQUIRED[j]).Dataset?
  }

  /** The reply says that the device can't serve the request, whatever the folder. */
  ghost predicate Cant(a: Reply) {
    || a.Garbled?
    || (a.Failure? && a.error.Io?)
    || (a.Failure? && a.error.Protocol? && a.error.code in {0x2005, 0x2006, 0xA801, 0xA802, 0xA807, 0xA808})
  }

  /** The session or the transport failed, and the device didn't answer. */
  ghost predicate NoAnswer(a: Reply) { a.Failure? && !a.error.Io? && !a.error.Protocol? }

  /** What the required requests come to when one isn't answered with a dataset. */
  ghost function Stopped(a: Reply): Required
    requires !a.Dataset?
  {
    if NoAnswer(a) then Broken(a.error) else if Cant(a) then TurnedOff else FellBack
  }

  /** From the j-th required request on, the i-th decides if it is the first without a dataset, or is cancelled. */
  lemma {:induction false} StopIsReached(
    reply: (nat, Handle, Property) -> Reply, cancelled: nat -> bool, n: nat, folder: Handle, i: nat, j: nat)
    requires j <= i < |REQUIRED| && GivesData(reply, cancelled, n, folder, i)
    requires cancelled(n + i) || !reply(n + i, folder, REQUIRED[i]).Dataset?
    ensures var got := AskRequired(reply, cancelled, n, folder, j);
            got == if cancelled(n + i) then Broken(Cancelled) else Stopped(reply(n + i, folder, REQUIRED[i]))
    decreases i - j
  {
    hide AskRequired;
    AskRequiredUnfolds(reply, cancelled, n, folder, j);
    if j < i {
      assert IsData(reply, cancelled, n, folder, j);
      StopIsReached(reply, cancelled, n, folder, i, j + 1);
    } else if !cancelled(n + i) {
      var a := reply(n + i, folder, REQUIRED[i]);
      assert a.Failure? && AnswerOf(a).Err? ==> AnswerOf(a).error == a.error;
    }
  }

  lemma {:induction false} GotIsData(
    reply: (nat, Handle, Property) -> Reply, cancelled: nat -> bool, n: nat, folder: Handle, i: nat)
    requires i <= |REQUIRED| && AskRequired(reply, cancelled, n, folder, 0).Got?
    ensures GivesData(reply, cancelled, n, folder, i)
  {
    hide AskRequired;
    if i > 0 {
      GotIsData(reply, cancelled, n, folder, i - 1);
      if !IsData(reply, cancelled, n, folder, i - 1) {
        StopIsReached(reply, cancelled, n, folder, i - 1, 0);
      }
    }
  }

  /** All elements of four datasets, in the order they were asked for. */
  function AllElements(reply: (nat, Handle, Property) -> Reply, n: nat, folder: Handle): seq<Element>
    requires reply(n, folder, ParentObject).Dataset? && reply(n + 1, folder, ObjectFileName).Dataset?
    requires reply(n + 2, folder, ObjectFormat).Dataset? && reply(n + 3, folder, ObjectSize).Dataset?
  {
    reply(n, folder, ParentObject).elements + (reply(n + 1, folder, ObjectFileName).elements
    + (reply(n + 2, folder, ObjectFormat).elements + reply(n + 3, folder, ObjectSize).elements))
  }

  lemma {:induction false} DataIsGathered(
    reply: (nat, Handle, Property) -> Reply, cancelled: nat -> bool, n: nat, folder: Handle)
    requires GivesData(reply, cancelled, n, folder, 4)
    ensures reply(n, folder, ParentObject).Dataset? && reply(n + 1, folder, ObjectFileName).Dataset?
    ensures reply(n + 2, folder, ObjectFormat).Dataset? && reply(n + 3, folder, ObjectSize).Dataset?
    ensures AskRequired(reply, cancelled, n, folder, 0) == Got(AllElements(reply, n, folder))
  {
    hide AskRequired;
    AskRequiredUnfolds(reply, cancelled, n, folder, 0);
    AskRequiredUnfolds(reply, cancelled, n, folder, 1);
    AskRequiredUnfolds(reply, cancelled, n, folder, 2);
    AskRequiredUnfolds(reply, cancelled, n, folder, 3);
    AskRequiredUnfolds(reply, cancelled, n, folder, 4);
    assert IsData(reply, cancelled, n, folder, 0) && IsData(reply, cancelled, n, folder, 1);
    assert IsData(reply, cancelled, n, folder, 2) && IsData(reply, cancelled, n, folder, 3);
    var last := reply(n + 3, folder, ObjectSize).elements;
    assert last + [] == last;
  }

  /** The required requests by the device's own replies: where they stop and how, or all their elements in order. */
  lemma {:induction false} RequiredByReplies(
    reply: (nat, Handle, Property) -> Reply, cancelled: nat -> bool, n: nat, folder: Handle)
    ensures var got := AskRequired(reply, cancelled, n, folder, 0);
            && (forall i: nat :: StopsAt(reply, cancelled, n, folder, i) ==> got == Stopped(reply(n + i, folder, REQUIRED[i])))
            && (forall i: nat :: CancelledAt(reply, cancelled, n, folder, i) ==> got == Broken(Cancelled))
            && (got.Got? ==> GivesData(reply, cancelled, n, folder, 4))
            && (GivesData(reply, cancelled, n, folder, 4) ==>
                  && reply(n, folder, ParentObject).Dataset? && reply(n + 1, folder, ObjectFileName).Dataset?
                  && reply(n + 2, folder, ObjectFormat).Dataset? && reply(n + 3, folder, ObjectSize).Dataset?
                  && got == Got(AllElements(reply, n, folder)))
  {
    hide AskRequired, GivesData, Stopped, AllElements;
    forall i: nat | StopsAt(reply, cancelled, n, folder, i)
      ensures AskRequired(reply, cancelled, n, folder, 0) == Stopped(reply(n + i, folder, REQUIRED[i]))
    {
      StopIsReached(reply, cancelled, n, folder, i, 0);
    }
    forall i: nat | CancelledAt(reply, cancelled, n, folder, i)
      ensures AskRequired(reply, cancelled, n, folder, 0) == Broken(Cancelled)
    {
      StopIsReached(reply, cancelled, n, folder, i, 0);
    }
    if AskRequired(reply, cancelled, n, folder, 0).Got? {
      GotIsData(reply, cancelled, n, folder, 4);
    }
    if GivesData(reply, cancelled, n, folder, 4) {
      DataIsGathered(reply, cancelled, n, folder);
    }
  }

  lemma {:induction false} PrefixedTwice(a: seq<Element>, b: seq<Element>, rest: Required)
    ensures Prefixed(a, Prefixed(b, rest)) == Prefixed(a + b, rest)
    ensures Prefixed([], rest) == rest && Prefixed(a, Got([])) == Got(a)
  {
  }

  lemma {:induction false} PrefixedBroken(a: seq<Element>, rest: Required)
    ensures !rest.Got? ==> Prefixed(a, rest) == rest
  {
  }

  lemma {:induction false} AskRequiredUnfolds(
    reply: (nat, Handle, Property) -> Reply, cancelled: nat -> bool, n: nat, folder: Handle, i: nat)
    requires i <= |REQUIRED|
    ensures AskRequired(reply, cancelled, n, folder, i) ==
            if i == |REQUIRED| then Got([])
            else if cancelled(n + i) then Broken(Cancelled)
            else
              var a := AnswerOf(reply(n + i, folder, REQUIRED[i]));
              if a.Err? then Broken(a.error)
              else if a.value.Elements? then
                Prefixed(a.value.elements, AskRequired(reply, cancelled, n, folder, i + 1))
              else if a.value.Refused? then FellBack
              else TurnedOff
  {
  }

  /** `b` is `a` with other dates. */
  predicate DatesOnly(a: ObjectInfo, b: ObjectInfo) {
    b == a.(created := b.created, modified := b.modified)
  }

  predicate AllDatesOnly(a: seq<ObjectInfo>, b: seq<ObjectInfo>) {
    |a| == |b| && forall i :: 0 <= i < |a| ==> DatesOnly(a[i], b[i])
  }

  /** Some element gives one of the children a value of `p`. */
  ghost predicate ServesSome(es: seq<Element>, p: Property, children: seq<ObjectInfo>) {
    exists i, k :: 0 <= i < |es| && 0 <= k < |children|
                   && es[i].property == p && Takes(es[i]) && es[i].handle == children[k].handle
  }

  /** An object with every value of `p` that `es` gives it, in order. */
  function WithProperty(info: ObjectInfo, es: seq<Element>, p: Property): (r: ObjectInfo)
    ensures r.handle == info.handle
    ensures p in OPTIONAL ==> DatesOnly(info, r)
  {
    if es == [] then info
    else
      var before, e := WithProperty(info, es[..|es| - 1], p), es[|es| - 1];
      if e.property == p && e.handle == info.handle && e.value.Some? then SetProperty(before, p, e.value.value)
      else before
  }

  function AllWithProperty(infos: seq<ObjectInfo>, es: seq<Element>, p: Property): (r: seq<ObjectInfo>)
    ensures |r| == |infos| && forall i :: 0 <= i < |r| ==> r[i] == WithProperty(infos[i], es, p)
    ensures p in OPTIONAL ==> AllDatesOnly(infos, r)
  {
    seq(|infos|, i requires 0 <= i < |infos| => WithProperty(infos[i], es, p))
  }

  /** Of an object, `p` is what the last element to give it says, and everything else is as it was. */
  ghost predicate Added(info: ObjectInfo, es: seq<Element>, p: Property, r: ObjectInfo) {
    && r.handle == info.handle && r.genericFolder == info.genericFolder
    && (forall q :: q != p ==> FieldOf(r, q) == FieldOf(info, q))
    && (forall i :: IsLast(es, info.handle, p, i) ==> FieldOf(r, p) == Said(p, es[i].value.value))
    && (!Given(es, info.handle, p) ==> FieldOf(r, p) == FieldOf(info, p))
  }

  lemma {:induction false} PropertyIsAdded(info: ObjectInfo, es: seq<Element>, p: Property)
    ensures Added(info, es, p, WithProperty(info, es, p))
  {
    hide SetProperty, FieldOf, Said, Fits, IsLast, Given;
    if es == [] {
      NothingGiven(info.handle, p);
    } else {
      var n := |es| - 1;
      PropertyIsAdded(info, es[..n], p);
      GivenShortens(es, info.handle, p);
      if es[n].property == p && es[n].handle == info.handle && es[n].value.Some? {
        SetPropertyWritesOneField(WithProperty(info, es[..n], p), p, es[n].value.value);
      }
    }
  }

  lemma {:induction false} NothingGiven(h: Handle, p: Property)
    ensures !Given([], h, p) && forall i :: !IsLast([], h, p, i)
  {
  }

  ghost predicate AllAdded(infos: seq<ObjectInfo>, es: seq<Element>, p: Property, r: seq<ObjectInfo>) {
    |r| == |infos| && forall k :: 0 <= k < |r| ==> Added(infos[k], es, p, r[k])
  }

  lemma {:induction false} PropertiesAreAdded(infos: seq<ObjectInfo>, es: seq<Element>, p: Property)
    ensures AllAdded(infos, es, p, AllWithProperty(infos, es, p))
  {
    hide Added, WithProperty;
    forall k | 0 <= k < |infos| ensures Added(infos[k], es, p, AllWithProperty(infos, es, p)[k]) {
      PropertyIsAdded(infos[k], es, p);
    }
  }

  /** The requests of a listing: the four required properties, then the dates that weren't declined. */
  function RequiredPlan(folder: Handle): seq<(Handle, Property)> {
    [(folder, ParentObject), (folder, ObjectFileName), (folder, ObjectFormat), (folder, ObjectSize)]
  }

  function DatePlan(folder: Handle, declined: set<Property>): seq<(Handle, Property)> {
    (if DateModified in declined then [] else [(folder, DateModified)])
    + (if DateCreated in declined then [] else [(folder, DateCreated)])
  }

  lemma {:induction false} PlanGrows<T>(first: seq<T>, between: seq<T>, last: seq<T>, a: seq<T>, b: seq<T>)
    requires between == first + a && between <= last && last[|between|..] <= b
    ensures last[|first|..] <= a + b && (last == between + b ==> last == first + (a + b))
  {
    assert last == between + last[|between|..];
    assert last[|first|..] == a + last[|between|..];
  }

  /** The part of the plan for the first `i` dates. */
  function DatesBefore(folder: Handle, declined: set<Property>, i: nat): seq<(Handle, Property)> {
    if i == 0 then []
    else if i == 1 then (if DateModified in declined then [] else [(folder, DateModified)])
    else DatePlan(folder, declined)
  }

  lemma {:induction false} NoDatesYet<T>(folder: Handle, declined: set<Property>, asked: seq<T>)
    ensures DatesBefore(folder, declined, 0) == [] && asked + [] == asked
    ensures DatesBefore(folder, declined, |OPTIONAL|) == DatePlan(folder, declined)
  {
  }

  lemma {:induction false} StillPlanned<T>(first: seq<T>, part: seq<T>, more: seq<T>, plan: seq<T>)
    ensures first + part + more == first + (part + more)
    ensures part + more <= plan ==> first <= first + part + more && (first + part + more)[|first|..] <= plan
  {
    assert (first + part + more)[|first|..] == part + more;
  }

  lemma {:induction false} NextDate(folder: Handle, before: set<Property>, declined: set<Property>, i: nat)
    requires i < |OPTIONAL| && before <= declined
    requires forall p :: p in declined && p !in before ==> p in OPTIONAL[..i]
    ensures OPTIONAL[i] in declined <==> OPTIONAL[i] in before
    ensures DatesBefore(folder, before, i + 1) ==
            DatesBefore(folder, before, i) + if OPTIONAL[i] in declined then [] else [(folder, OPTIONAL[i])]
    ensures DatesBefore(folder, before, i) <= DatePlan(folder, before)
    ensures DatesBefore(folder, before, i + 1) <= DatePlan(folder, before)
  {
    assert OPTIONAL[0] == DateModified && OPTIONAL[1] == DateCreated;
    assert i == 1 ==> OPTIONAL[..i] == [DateModified];
  }

  predicate DistinctHandles(infos: seq<ObjectInfo>) {
    forall i, j :: 0 <= i < j < |infos| ==> infos[i].handle != infos[j].handle
  }

  /** Sets `p` on the children an answer names; whether any took a value. */
  method SetOptional(es: seq<Element>, p: Property, children0: seq<ObjectInfo>)
    returns (children: seq<ObjectInfo>, served: bool)
    requires DistinctHandles(children0)
    ensures children == AllWithProperty(children0, es, p)
    ensures served <==> ServesSome(es, p, children0)
  {
    hide WithProperty, SetProperty, ServesSome;
    children := children0;
    served := false;
    var index := IndexByHandle(children);
    NothingServed(children, p);
    for j := 0 to |es|
      invariant children == AllWithProperty(children0, es[..j], p)
      invariant served <==> ServesSome(es[..j], p, children0)
    {
      var e := es[j];
      OneMoreElement(children0, es, j, p);
      if e.property == p && e.handle in index && e.value.Some? {
        var i := index[e.handle];
        served := served || Fits(p, e.value.value);
        children := children[i := SetProperty(children[i], p, e.value.value)];
      }
      assert children == AllWithProperty(children0, es[..j + 1], p);
      ServesOneMore(es, j, p, children0);
    }
    assert es[..|es|] == es;
  }

  lemma {:induction false} NothingServed(infos: seq<ObjectInfo>, p: Property)
    ensures AllWithProperty(infos, [], p) == infos && !ServesSome([], p, infos)
  {
  }

  lemma {:induction false} OneMoreElement(infos: seq<ObjectInfo>, es: seq<Element>, j: nat, p: Property)
    requires j < |es|
    ensures forall i :: 0 <= i < |infos| ==>
              WithProperty(infos[i], es[..j + 1], p) ==
              if es[j].property == p && es[j].handle == infos[i].handle && es[j].value.Some?
              then SetProperty(WithProperty(infos[i], es[..j], p), p, es[j].value.value)
              else WithProperty(infos[i], es[..j], p)
  {
    assert es[..j + 1][..j] == es[..j];
  }

  lemma {:induction false} ServesOneMore(es: seq<Element>, j: nat, p: Property, children: seq<ObjectInfo>)
    requires j < |es|
    ensures ServesSome(es[..j + 1], p, children) <==>
            ServesSome(es[..j], p, children)
            || (es[j].property == p && Takes(es[j]) && exists k :: 0 <= k < |children| && es[j].handle == children[k].handle)
  {
  }

  method IndexByHandle(children: seq<ObjectInfo>) returns (index: map<Handle, nat>)
    ensures forall h :: h in index ==> index[h] < |children| && children[index[h]].handle == h
    ensures forall k :: 0 <= k < |children| ==> children[k].handle in index
  {
    index := map[];
    for i := 0 to |children|
      invariant forall h :: h in index ==> index[h] < i && children[index[h]].handle == h
      invariant forall k :: 0 <= k < i ==> children[k].handle in index
    {
      index := index[children[i].handle := i];
    }
  }

  /** A listing as the optional properties are added: the children, the flags, and the requests sent. */
  datatype Adding = Adding(children: Result<seq<ObjectInfo>, PtpError>, declined: set<Property>, sent: nat)

  /** Adding one optional property. */
  ghost function AddOne(
    reply: (nat, Handle, Property) -> Reply, cancelled: nat -> bool, folder: Handle, p: Property, a: Adding
  ): Adding
  {
    if a.children.Err? || p in a.declined then a
    else if cancelled(a.sent) then a.(children := Err(Cancelled))
    else
      var sent := a.sent + 1;
      match AnswerOf(reply(a.sent, folder, p))
      case Err(e) => a.(children := Err(e), sent := sent)
      case Ok(Refused) => a.(sent := sent)
      case Ok(Declined) => a.(declined := a.declined + {p}, sent := sent)
      case Ok(Unparseable) => a.(declined := a.declined + {p}, sent := sent)
      case Ok(Elements(es)) =>
        Adding(
          Ok(AllWithProperty(a.children.value, es, p)),
          if ServesSome(es, p, a.children.value) then a.declined else a.declined + {p},
          sent)
  }

  /** Adding the optional properties from the i-th on, one after the other. */
  ghost function AddFrom(
    reply: (nat, Handle, Property) -> Reply, cancelled: nat -> bool, folder: Handle, i: nat, a: Adding
  ): Adding
    requires i <= |OPTIONAL|
    decreases |OPTIONAL| - i
  {
    if i == |OPTIONAL| then a
    else AddFrom(reply, cancelled, folder, i + 1, AddOne(reply, cancelled, folder, OPTIONAL[i], a))
  }

  /** What a listing by property comes to, when `n` requests have been sent and `declined` remembered. */
  ghost function ByPropList(
    reply: (nat, Handle, Property) -> Reply, cancelled: nat -> bool, n: nat, declined: set<Property>,
    storage: StorageId, folder: Handle
  ): Result<Option<seq<ObjectInfo>>, PtpError>
  {
    match AskRequired(reply, cancelled, n, folder, 0)
    case Broken(e) => Err(e)
    case TurnedOff => Ok(None)
    case FellBack => Ok(None)
    case Got(es) =>
      var judged := Judged(es, storage, folder);
      if judged.Err? || judged.value == [] then Ok(None)
      else
        var children :- AddFrom(reply, cancelled, folder, 0, Adding(Ok(judged.value), declined, n + |REQUIRED|)).children;
        Ok(Some(children))
  }

  /** What a session has asked and learnt by some moment. */
  datatype Memory = Memory(asked: seq<(Handle, Property)>, off: bool, declined: set<Property>)

  /**
   From `a` to a later `b`: what is learnt stays, nothing declined by `a` has been asked since, and
   nothing at all if it was switched off by then.
   */
  ghost predicate Since(a: Memory, b: Memory) {
    && a.asked <= b.asked && a.declined <= b.declined && (a.off ==> b.off && a.asked == b.asked)
    && forall k :: |a.asked| <= k < |b.asked| ==> b.asked[k].1 !in a.declined
  }

  lemma {:induction false} SinceItself(a: Memory)
    ensures Since(a, a)
  {
  }

  lemma {:induction false} SwitchingOff(a: Memory, b: Memory)
    requires Since(a, b) && !a.off
    ensures Since(a, b.(off := true))
  {
  }

  lemma {:induction false} SinceChains(a: Memory, b: Memory, c: Memory)
    requires Since(a, b) && Since(b, c)
    ensures Since(a, c)
  {
    forall k | |a.asked| <= k < |c.asked| ensures c.asked[k].1 !in a.declined {
      assert k < |b.asked| ==> c.asked[k] == b.asked[k];
    }
  }

  class Session {
    const reply: (nat, Handle, Property) -> Reply
    /** The required properties can't be served: listings go per handle from here on. */
    var off: bool
    /** Optional properties the device declined. */
    var declined: set<Property>
    /** The requests sent, as folder and property. */
    var asked: seq<(Handle, Property)>

    /** Only optional properties are remembered as declined. */
    ghost predicate Valid()
      reads this
    {
      forall p :: p in declined ==> p in OPTIONAL
    }

    ghost function Now(): Memory
      reads this
    {
      Memory(asked, off, declined)
    }

    constructor (reply: (nat, Handle, Property) -> Reply)
      ensures this.reply == reply
      ensures Valid() && !off && declined == {} && asked == []
    {
      this.reply := reply;
      off, declined, asked := false, {}, [];
    }

    /** One request for a property of a folder's children. */
    method Ask(folder: Handle, p: Property) returns (r: Result<Answer, PtpError>)
      requires Valid() && !off && p !in declined
      modifies this`asked
      ensures Valid() && asked == old(asked) + [(folder, p)]
      ensures r == AnswerOf(reply(|old(asked)|, folder, p))
    {
      r := AnswerOf(reply(|asked|, folder, p));
      asked := asked + [(folder, p)];
    }

    /** Asks for one optional property and sets it on the children; what the device can't serve is remembered. */
    method AddOptional(cancelled: nat -> bool, folder: Handle, p: Property, children0: seq<ObjectInfo>)
      returns (r: Result<seq<ObjectInfo>, PtpError>)
      requires Valid() && !off && p in OPTIONAL && DistinctHandles(children0)
      modifies this`asked, this`declined
      ensures Valid() && Since(old(Now()), Now())
      ensures Adding(r, declined, |asked|) ==
              AddOne(reply, cancelled, folder, p, Adding(Ok(children0), old(declined), |old(asked)|))
      ensures r.Ok? ==> AllDatesOnly(children0, r.value)
      ensures var asks := p !in old(declined) && !cancelled(|old(asked)|);
              asked == old(asked) + if asks then [(folder, p)] else []
      ensures p in old(declined) ==> r == Ok(children0) && declined == old(declined)
      ensures p !in old(declined) && cancelled(|old(asked)|) ==> r == Err(Cancelled) && declined == old(declined)
      ensures p !in old(declined) && !cancelled(|old(asked)|) ==>
                var a := reply(|old(asked)|, folder, p);
                && (declined == old(declined)
                    + if Cant(a) || (a.Dataset? && !ServesSome(a.elements, p, children0)) then {p} else {})
                && (a.Dataset? ==> r.Ok? && AllAdded(children0, a.elements, p, r.value))
                && (!a.Dataset? ==> r == if NoAnswer(a) then Err(a.error) else Ok(children0))
    {
      hide WithProperty, ServesSome, DatesOnly, AllAdded;
      AllDatesSame(children0);
      if p in declined {
        return Ok(children0);
      }
      if cancelled(|asked|) {
        return Err(Cancelled);
      }
      var answer :- Ask(folder, p);
      var children, served := children0, false;
      match answer {
        case Elements(es) =>
          children, served := SetOptional(es, p, children0);
          PropertiesAreAdded(children0, es, p);
        case Declined =>
        case Unparseable =>
        case Refused => return Ok(children0);
      }
      if !served {
        declined := declined + {p};
      }
      return Ok(children);
    }

    /** The required requests, in order, until one doesn't give elements. */
    method AskAllRequired(cancelled: nat -> bool, folder: Handle) returns (got: Required)
      requires Valid() && !off
      modifies this`asked, this`off
      ensures Valid() && Since(old(Now()), Now()) && declined == old(declined)
      ensures got == AskRequired(reply, cancelled, |old(asked)|, folder, 0)
      ensures off <==> got == TurnedOff
      ensures got.Got? ==> |asked| == |old(asked)| + |REQUIRED|
      ensures |asked| <= |old(asked)| + 4 && asked == old(asked) + RequiredPlan(folder)[..|asked| - |old(asked)|]
    {
      hide AnswerOf, AskRequired, Prefixed;
      var elements: seq<Element> := [];
      ghost var n := |asked|;
      ghost var all := AskRequired(reply, cancelled, n, folder, 0);
      PrefixedTwice([], [], all);
      for i := 0 to |REQUIRED|
        invariant Valid() && !off && Since(old(Now()), Now()) && |asked| == n + i
        invariant asked == old(asked) + RequiredPlan(folder)[..i]
        invariant all == Prefixed(elements, AskRequired(reply, cancelled, n, folder, i))
      {
        AskRequiredUnfolds(reply, cancelled, n, folder, i);
        PrefixedBroken(elements, AskRequired(reply, cancelled, n, folder, i));
        if cancelled(|asked|) {
          return Broken(Cancelled);
        }
        RequiredIsNotOptional(i);
        var answer := Ask(folder, REQUIRED[i]);
        if answer.Err? {
          return Broken(answer.error);
        }
        match answer.value {
          case Elements(es) =>
            PrefixedTwice(elements, es, AskRequired(reply, cancelled, n, folder, i + 1));
            elements := elements + es;
          case Refused =>
            return FellBack;
          case Declined =>
            off := true;
            return TurnedOff;
          case Unparseable =>
            off := true;
            return TurnedOff;
        }
      }
      AskRequiredUnfolds(reply, cancelled, n, folder, |REQUIRED|);
      PrefixedTwice(elements, [], Got([]));
      return Got(elements);
    }

    /** Asks for each date that wasn't declined, one after the other. */
    method AddOptionalProperties(cancelled: nat -> bool, folder: Handle, children0: seq<ObjectInfo>)
      returns (r: Result<seq<ObjectInfo>, PtpError>)
      requires Valid() && !off && DistinctHandles(children0)
      modifies this`asked, this`declined
      ensures Valid() && Since(old(Now()), Now())
      ensures Adding(r, declined, |asked|) ==
              AddFrom(reply, cancelled, folder, 0, Adding(Ok(children0), old(declined), |old(asked)|))
      ensures r.Ok? ==> AllDatesOnly(children0, r.value)
      ensures old(asked) <= asked && asked[|old(asked)|..] <= DatePlan(folder, old(declined))
      ensures r.Ok? ==> asked == old(asked) + DatePlan(folder, old(declined))
    {
      hide DatesOnly, AllDatesOnly, AddOne, AddFrom, DistinctHandles, AllAdded, ServesSome, Since, Cant, NoAnswer, DatePlan,
        DatesBefore;
      NoDatesYet(folder, declined, asked);
      ghost var added := AddFrom(reply, cancelled, folder, 0, Adding(Ok(children0), declined, |asked|));
      AllDatesSame(children0);
      SinceItself(Now());
      var with := children0;
      for i := 0 to |OPTIONAL|
        invariant Valid() && !off && Since(old(Now()), Now())
        invariant AllDatesOnly(children0, with) && DistinctHandles(with)
        invariant added == AddFrom(reply, cancelled, folder, i, Adding(Ok(with), declined, |asked|))
        invariant asked == old(asked) + DatesBefore(folder, old(declined), i)
        invariant forall p :: p in declined && p !in old(declined) ==> p in OPTIONAL[..i]
        invariant old(declined) <= declined
      {
        AddFromUnfolds(reply, cancelled, folder, i, Adding(Ok(with), declined, |asked|));
        NextDate(folder, old(declined), declined, i);
        ghost var before := Now();
        var next := AddOptional(cancelled, folder, OPTIONAL[i], with);
        StillPlanned(
          old(asked), DatesBefore(folder, old(declined), i), asked[|before.asked|..], DatePlan(folder, old(declined)));
        SinceChains(old(Now()), before, Now());
        if next.Err? {
          return next;
        }
        AllDatesChain(children0, with, next.value);
        DatesKeepHandles(with, next.value);
        with := next.value;
      }
      AddFromUnfolds(reply, cancelled, folder, |OPTIONAL|, Adding(Ok(with), declined, |asked|));
      return Ok(with);
    }

    lemma {:induction false} RequiredIsNotOptional(i: nat)
      requires Valid() && i < |REQUIRED|
      ensures REQUIRED[i] !in declined
    {
    }

    /**
     Lists a folder's children by property, or `None` to have them listed per handle. The contract
     is exact about the flag: it is set by a required property the device can't serve and by a
     systemic answer, and by nothing else.
     */
    method ListByPropList(cancelled: nat -> bool, storage: StorageId, folder: Handle)
      returns (r: Result<Option<seq<ObjectInfo>>, PtpError>)
      requires Valid()
      modifies this
      ensures Valid() && Since(old(Now()), Now())
      ensures old(off) ==> r == Ok(None) && asked == old(asked) && declined == old(declined)
      ensures !old(off) ==> r == ByPropList(reply, cancelled, |old(asked)|, old(declined), storage, folder)
      ensures !old(off) ==>
                match AskRequired(reply, cancelled, |old(asked)|, folder, 0)
                case Broken(_) => !off && declined == old(declined)
                case TurnedOff => off && declined == old(declined)
                case FellBack => !off && declined == old(declined)
                case Got(es) =>
                  match Judged(es, storage, folder)
                  case Err(why) => (off <==> why == Systemic) && declined == old(declined)
                  case Ok(children) =>
                    && !off
                    && (children == [] ==> declined == old(declined))
                    && (children != [] ==>
                          var added := AddFrom(
                            reply, cancelled, folder, 0, Adding(Ok(children), old(declined), |old(asked)| + |REQUIRED|));
                          && declined == added.declined && |asked| == added.sent)
                    && (children != [] && r.Ok? ==> r.value.Some? && AllDatesOnly(children, r.value.value))
      ensures r.Ok? && r.value.Some? ==>
                && !old(off) && GivesData(reply, cancelled, |old(asked)|, folder, 4) && r.value.value != []
                && AskRequired(reply, cancelled, |old(asked)|, folder, 0).Got?
                && IsComplete(
                     AskRequired(reply, cancelled, |old(asked)|, folder, 0).elements, storage, folder, r.value.value)
      ensures !old(off) ==>
                && (forall i: nat :: CancelledAt(reply, cancelled, |old(asked)|, folder, i) ==>
                      r == Err(Cancelled) && !off && declined == old(declined))
                && (forall i: nat :: StopsAt(reply, cancelled, |old(asked)|, folder, i) ==>
                      var a := reply(|old(asked)| + i, folder, REQUIRED[i]);
                      && r == (if NoAnswer(a) then Err(a.error) else Ok(None))
                      && (off <==> Cant(a)) && declined == old(declined))
      ensures !old(off) ==> asked[|old(asked)|..] <= RequiredPlan(folder) + DatePlan(folder, old(declined))
      ensures r.Ok? && r.value.Some? ==> asked == old(asked) + (RequiredPlan(folder) + DatePlan(folder, old(declined)))
    {
      hide AskRequired, Judged, DatesOnly, AnswerOf, AddOne, AddFrom, DistinctHandles, IsComplete, StopsAt, CancelledAt,
        GivesData, Since, AllElements, DatePlan;
      SinceItself(Now());
      RequiredByReplies(reply, cancelled, |asked|, folder);
      if off {
        return Ok(None);
      }
      var got := AskAllRequired(cancelled, folder);
      ghost var between := Now();
      match got {
        case Broken(e) => return Err(e);
        case TurnedOff => return Ok(None);
        case FellBack => return Ok(None);
        case Got(elements) =>
          var judged := ChildrenFromPropList(elements, storage, folder);
          match judged {
            case Err(why) =>
              if why == Systemic {
                SwitchingOff(old(Now()), Now());
                off := true;
              }
              return Ok(None);
            case Ok(children) =>
              if children == [] {
                return Ok(None);
              }
              ChildrenAreDistinct(elements, storage, folder);
              var added := AddOptionalProperties(cancelled, folder, children);
              SinceChains(old(Now()), between, Now());
              PlanGrows(old(asked), between.asked, asked, RequiredPlan(folder), DatePlan(folder, old(declined)));
              var with :- added;
              ListingIsComplete(elements, storage, folder, with);
              return Ok(Some(with));
          }
      }
    }
  }

  lemma {:induction false} AllDatesSame(a: seq<ObjectInfo>)
    ensures AllDatesOnly(a, a)
  {
  }

  lemma {:induction false} DatesKeepHandles(a: seq<ObjectInfo>, b: seq<ObjectInfo>)
    requires AllDatesOnly(a, b) && DistinctHandles(a)
    ensures DistinctHandles(b)
  {
  }

  lemma {:induction false} ChildrenAreDistinct(es: seq<Element>, storage: StorageId, folder: Handle)
    requires Judged(es, storage, folder).Ok?
    ensures DistinctHandles(Judged(es, storage, folder).value)
  {
    hide Judged, FirstSeen, Given;
    AnswerIsComplete(es, storage, folder);
  }

  /** One step of adding; after an error nothing more is added. */
  lemma {:induction false} AddFromUnfolds(
    reply: (nat, Handle, Property) -> Reply, cancelled: nat -> bool, folder: Handle, i: nat, a: Adding)
    requires i <= |OPTIONAL|
    ensures i == |OPTIONAL| ==> AddFrom(reply, cancelled, folder, i, a) == a
    ensures i < |OPTIONAL| ==>
              var one := AddOne(reply, cancelled, folder, OPTIONAL[i], a);
              && AddFrom(reply, cancelled, folder, i, a) == AddFrom(reply, cancelled, folder, i + 1, one)
              && (one.children.Err? ==> AddFrom(reply, cancelled, folder, i + 1, one) == one)
  {
  }

  lemma {:induction false} AllDatesChain(a: seq<ObjectInfo>, b: seq<ObjectInfo>, c: seq<ObjectInfo>)
    requires AllDatesOnly(a, b) && AllDatesOnly(b, c)
    ensures AllDatesOnly(a, c)
  {
  }

  /**
   No handle told of is dropped but the folder's own, none repeated; each child has its parent and all
   it needs, as its last elements say, and the listed storage unless they say otherwise.
   */
  ghost predicate IsComplete(es: seq<Element>, storage: StorageId, folder: Handle, listed: seq<ObjectInfo>) {
    && DistinctHandles(listed)
    && (forall i :: 0 <= i < |es| && es[i].handle != folder ==>
                      exists k :: 0 <= k < |listed| && listed[k].handle == es[i].handle)
    && (forall k :: 0 <= k < |listed| ==>
                      && listed[k].handle != folder && listed[k].parent == folder
                      && Given(es, listed[k].handle, ParentObject) && Given(es, listed[k].handle, ObjectFileName)
                      && Given(es, listed[k].handle, ObjectFormat)
                      && (!listed[k].IsFolder() ==> Given(es, listed[k].handle, ObjectSize))
                      && (forall p :: p !in {StorageID, DateCreated, DateModified} ==>
                            HoldsLast(es, listed[k].handle, p, FieldOf(listed[k], p)))
                      && HasStorage(es, storage, listed[k]))
  }

  lemma {:induction false} DatesLeaveFields(a: ObjectInfo, b: ObjectInfo, p: Property)
    requires DatesOnly(a, b) && p !in {DateCreated, DateModified}
    ensures FieldOf(b, p) == FieldOf(a, p)
  {
  }

  /** Against any device, a listing by property is complete, whatever dates were added. */
  lemma {:induction false} ListingIsComplete(es: seq<Element>, storage: StorageId, folder: Handle, listed: seq<ObjectInfo>)
    requires Judged(es, storage, folder).Ok? && AllDatesOnly(Judged(es, storage, folder).value, listed)
    ensures IsComplete(es, storage, folder, listed)
  {
    hide Judged, Given, FirstSeen, HoldsLast, IsLast;
    AnswerIsComplete(es, storage, folder);
    var base := Judged(es, storage, folder).value;
    assert forall k :: 0 <= k < |listed| ==> DatesOnly(base[k], listed[k]);
    forall k, p | 0 <= k < |listed| && p !in {StorageID, DateCreated, DateModified}
      ensures FieldOf(listed[k], p) == FieldOf(base[k], p)
    {
      DatesLeaveFields(base[k], listed[k], p);
    }
    forall i | 0 <= i < |es| && es[i].handle != folder
      ensures exists k :: 0 <= k < |listed| && listed[k].handle == es[i].handle
    {
      var k :| 0 <= k < |base| && base[k].handle == es[i].handle;
      assert listed[k].handle == es[i].handle;
    }
  }

  // --- Whole sessions ---

  /** A folder to list, with the listing's cancel token. */
  datatype Request = Request(storage: StorageId, folder: Handle, cancelled: nat -> bool)

  /** What one listing gives, from what had been learnt before it. */
  ghost function ListedFrom(
    reply: (nat, Handle, Property) -> Reply, m: Memory, l: Request): Result<Option<seq<ObjectInfo>>, PtpError> {
    if m.off then Ok(None) else ByPropList(reply, l.cancelled, |m.asked|, m.declined, l.storage, l.folder)
  }

  /**
   Any number of listings, each with its own token. `memories` is the session before each of them and
   after the last: from each to every later one, what is learnt stays, no property declined by then
   is asked again, and nothing is asked at all once switched off.
   */
  method ListMany(session: Session, requests: seq<Request>)
    returns (rs: seq<Result<Option<seq<ObjectInfo>>, PtpError>>, ghost memories: seq<Memory>)
    requires session.Valid()
    modifies session
    ensures session.Valid() && |rs| == |requests| && |memories| == |requests| + 1
    ensures memories[0] == old(session.Now()) && memories[|requests|] == session.Now()
    ensures forall i :: 0 <= i < |rs| ==> rs[i] == ListedFrom(session.reply, memories[i], requests[i])
    ensures forall i, j :: 0 <= i <= j < |memories| ==> Since(memories[i], memories[j])
  {
    hide ByPropList, AskRequired, Judged, IsComplete, Since, Session.Valid;
    rs, memories := [], [session.Now()];
    SinceItself(session.Now());
    for n := 0 to |requests|
      invariant session.Valid() && |rs| == n && |memories| == n + 1
      invariant memories[0] == old(session.Now()) && memories[n] == session.Now()
      invariant forall i :: 0 <= i < |rs| ==> rs[i] == ListedFrom(session.reply, memories[i], requests[i])
      invariant forall i, j :: 0 <= i <= j < |memories| ==> Since(memories[i], memories[j])
    {
      var l := requests[n];
      var r := session.ListByPropList(l.cancelled, l.storage, l.folder);
      forall i | 0 <= i < |memories| ensures Since(memories[i], session.Now()) {
        SinceChains(memories[i], memories[n], session.Now());
      }
      SinceItself(session.Now());
      rs, memories := rs + [r], memories + [session.Now()];
    }
  }
}
