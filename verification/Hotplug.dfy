/**
 The hotplug watch, crates/mtp-rs/src/mtp/hotplug.rs: each enumeration of the bus is compared with
 the last one and the difference becomes arrivals and departures.

 A hash map's iteration order is arbitrary, so `Diff` takes keys in any order, and everything
 below holds for every order.
 */
module Hotplug {
  import opened Common

  /** Identity of a device: where it is plugged in, and what it says it is. */
  datatype DeviceKey = DeviceKey(location: u64, vendor: u16, product: u16, serial: Option<string>)

  /** `rest` stands for the fields that are not part of the identity. */
  datatype DeviceInfo = DeviceInfo(location: u64, vendor: u16, product: u16, serial: Option<string>, rest: string)

  function KeyOf(info: DeviceInfo): DeviceKey {
    DeviceKey(info.location, info.vendor, info.product, info.serial)
  }

  datatype HotplugEvent = Arrived(info: DeviceInfo) | Left(info: DeviceInfo)

  type Devices = map<DeviceKey, DeviceInfo>

  /** Two devices are one to the watch exactly when port, vendor, product and serial agree. */
  lemma {:induction false} KeyIsIdentity(a: DeviceInfo, b: DeviceInfo)
    ensures KeyOf(a) == KeyOf(b) <==>
            a.location == b.location && a.vendor == b.vendor && a.product == b.product && a.serial == b.serial
  {
  }

  /** The i-th device listed is the last one of its key. */
  predicate IsLastOfKey(listed: seq<DeviceInfo>, i: int) {
    0 <= i < |listed| && forall j :: i < j < |listed| ==> KeyOf(listed[j]) != KeyOf(listed[i])
  }

  /** `m` is an enumeration by key: every device listed has its key, under which the last one of it is. */
  ghost predicate IsListing(m: Devices, listed: seq<DeviceInfo>) {
    && (forall i :: 0 <= i < |listed| ==> KeyOf(listed[i]) in m)
    && (forall k :: k in m ==> exists i :: IsLastOfKey(listed, i) && KeyOf(listed[i]) == k && m[k] == listed[i])
  }

  lemma {:induction false} ListingGrows(m: Devices, listed: seq<DeviceInfo>, d: DeviceInfo)
    requires IsListing(m, listed)
    ensures IsListing(m[KeyOf(d) := d], listed + [d])
  {
    var longer, m' := listed + [d], m[KeyOf(d) := d];
    forall k | k in m' ensures exists i :: IsLastOfKey(longer, i) && KeyOf(longer[i]) == k && m'[k] == longer[i] {
      if k == KeyOf(d) {
        assert IsLastOfKey(longer, |listed|);
      } else {
        var i :| IsLastOfKey(listed, i) && KeyOf(listed[i]) == k && m[k] == listed[i];
        assert IsLastOfKey(longer, i) && longer[i] == listed[i];
      }
    }
  }

  /** Every entry is filed under its own key. */
  predicate Keyed(m: Devices) { forall k :: k in m ==> KeyOf(m[k]) == k }

  // --- What one comparison reports ---

  /** The events name each of `keys` once, as `m` describes it. */
  ghost predicate Names(events: seq<HotplugEvent>, keys: set<DeviceKey>, m: Devices) {
    && keys <= m.Keys
    && (forall i :: 0 <= i < |events| ==> KeyOf(events[i].info) in keys && events[i].info == m[KeyOf(events[i].info)])
    && (forall i, j :: 0 <= i < j < |events| ==> KeyOf(events[i].info) != KeyOf(events[j].info))
    && (forall k :: k in keys ==> exists i :: 0 <= i < |events| && KeyOf(events[i].info) == k)
  }

  /** One enumeration, by key, and what it reported: departures, as last seen, then arrivals. */
  datatype Round = Round(
    listed: seq<DeviceInfo>, after: Devices, departures: seq<HotplugEvent>, arrivals: seq<HotplugEvent>)

  ghost predicate Reports(before: Devices, r: Round) {
    && IsListing(r.after, r.listed)
    && Names(r.departures, before.Keys - r.after.Keys, before)
    && Names(r.arrivals, r.after.Keys - before.Keys, r.after)
    && (forall i :: 0 <= i < |r.departures| ==> r.departures[i].Left?)
    && (forall i :: 0 <= i < |r.arrivals| ==> r.arrivals[i].Arrived?)
  }

  /** The entries of `m` whose keys are not in `other`, in any order, as departures or as arrivals. */
  method EventsFor(m: Devices, other: Devices, left: bool) returns (events: seq<HotplugEvent>)
    requires Keyed(m)
    ensures Names(events, m.Keys - other.Keys, m)
    ensures forall i :: 0 <= i < |events| ==> events[i].Left? == left
  {
    events := [];
    var todo := m.Keys;
    ghost var named: set<DeviceKey> := {};
    while todo != {}
      invariant todo <= m.Keys && named == (m.Keys - todo) - other.Keys
      invariant Names(events, named, m)
      invariant forall i :: 0 <= i < |events| ==> events[i].Left? == left
    {
      var key :| key in todo;
      todo := todo - {key};
      if key !in other {
        NamesGrows(events, named, m, key, if left then Left(m[key]) else Arrived(m[key]));
        events := events + [if left then Left(m[key]) else Arrived(m[key])];
        named := named + {key};
      }
    }
    assert named == m.Keys - other.Keys;
  }

  lemma {:induction false} NamesGrows(events: seq<HotplugEvent>, keys: set<DeviceKey>, m: Devices, key: DeviceKey, e: HotplugEvent)
    requires Keyed(m) && Names(events, keys, m) && key in m && key !in keys && e.info == m[key]
    ensures Names(events + [e], keys + {key}, m)
  {
    var es := events + [e];
    forall k | k in keys + {key} ensures exists i :: 0 <= i < |es| && KeyOf(es[i].info) == k {
      if k == key {
        assert KeyOf(es[|events|].info) == k;
      } else {
        var i :| 0 <= i < |events| && KeyOf(events[i].info) == k;
        assert KeyOf(es[i].info) == k;
      }
    }
  }

  /** Compares an enumeration with the known set: the new known set, and what changed. */
  method Diff(known: Devices, listed: seq<DeviceInfo>)
    returns (known': Devices, events: seq<HotplugEvent>, ghost r: Round)
    requires Keyed(known)
    ensures IsListing(known', listed) && Keyed(known')
    ensures r.listed == listed && r.after == known' && Reports(known, r) && events == r.departures + r.arrivals
  {
    hide Names;
    var current: Devices := map[];
    for i := 0 to |listed|
      invariant IsListing(current, listed[..i]) && Keyed(current)
    {
      ListingGrows(current, listed[..i], listed[i]);
      assert listed[..i + 1] == listed[..i] + [listed[i]];
      current := current[KeyOf(listed[i]) := listed[i]];
    }
    assert listed[..|listed|] == listed;
    var departures := EventsFor(known, current, true);
    var arrivals := EventsFor(current, known, false);
    events := departures + arrivals;
    r := Round(listed, current, departures, arrivals);
    known' := current;
  }

  // --- Whole runs ---

  /** The known set after some rounds: the last enumeration. */
  function KnownAfter(rounds: seq<Round>): Devices {
    if rounds == [] then map[] else rounds[|rounds| - 1].after
  }

  /** Every round reports the change from the enumeration before it. */
  ghost predicate IsRun(rounds: seq<Round>) {
    rounds != [] ==>
      IsRun(rounds[..|rounds| - 1]) && Reports(KnownAfter(rounds[..|rounds| - 1]), rounds[|rounds| - 1])
  }

  /** All events of a run, oldest first. */
  function EventsOf(rounds: seq<Round>): seq<HotplugEvent> {
    if rounds == [] then []
    else
      var last := rounds[|rounds| - 1];
      EventsOf(rounds[..|rounds| - 1]) + last.departures + last.arrivals
  }

  /** Who is present after the events, if each arrival was of an absent device and each departure of a present one. */
  function Replay(events: seq<HotplugEvent>): Option<set<DeviceKey>> {
    if events == [] then Some({})
    else
      var n := |events| - 1;
      var present :- Replay(events[..n]);
      var key := KeyOf(events[n].info);
      if events[n].Arrived? then (if key in present then None else Some(present + {key}))
      else (if key in present then Some(present - {key}) else None)
  }

  function NamedKeys(events: seq<HotplugEvent>): set<DeviceKey> {
    set i | 0 <= i < |events| :: KeyOf(events[i].info)
  }

  lemma {:induction false} NamedKeysOfLast(events: seq<HotplugEvent>)
    requires events != []
    ensures var n := |events| - 1; NamedKeys(events) == NamedKeys(events[..n]) + {KeyOf(events[n].info)}
    ensures (forall i, j :: 0 <= i < j < |events| ==> KeyOf(events[i].info) != KeyOf(events[j].info)) ==>
              KeyOf(events[|events| - 1].info) !in NamedKeys(events[..|events| - 1])
  {
  }

  lemma {:induction false} NothingNamed()
    ensures NamedKeys([]) == {}
  {
  }

  /** One more event, replayed. */
  lemma {:induction false} ReplayOne(log: seq<HotplugEvent>, e: HotplugEvent)
    ensures Replay(log + [e]) ==
            if Replay(log).None? || (KeyOf(e.info) in Replay(log).value) == e.Arrived? then None
            else if e.Arrived? then Some(Replay(log).value + {KeyOf(e.info)})
            else Some(Replay(log).value - {KeyOf(e.info)})
  {
  }

  function Moved(present: set<DeviceKey>, keys: set<DeviceKey>, left: bool): set<DeviceKey> {
    if left then present - keys else present + keys
  }

  /** Departures of distinct present devices replay to their absence; likewise arrivals. */
  lemma {:induction false} ReplayBatch(log: seq<HotplugEvent>, batch: seq<HotplugEvent>, present: set<DeviceKey>, left: bool)
    requires Replay(log) == Some(present)
    requires forall i :: 0 <= i < |batch| ==> batch[i].Left? == left && (KeyOf(batch[i].info) in present) == left
    requires forall i, j :: 0 <= i < j < |batch| ==> KeyOf(batch[i].info) != KeyOf(batch[j].info)
    ensures Replay(log + batch) == Some(Moved(present, NamedKeys(batch), left))
  {
    hide Replay, NamedKeys, KeyOf;
    if batch == [] {
      assert log + batch == log && Moved(present, {}, left) == present;
      NothingNamed();
    } else {
      var n := |batch| - 1;
      ReplayBatch(log, batch[..n], present, left);
      NamedKeysOfLast(batch);
      ReplayOne(log + batch[..n], batch[n]);
      assert log + batch == log + batch[..n] + [batch[n]];
      var key, moved := KeyOf(batch[n].info), Moved(present, NamedKeys(batch[..n]), left);
      assert Moved(moved, {key}, left) == Moved(present, NamedKeys(batch), left);
    }
  }

  lemma {:induction false} NamesAreKeys(events: seq<HotplugEvent>, keys: set<DeviceKey>, m: Devices)
    requires Names(events, keys, m)
    ensures NamedKeys(events) == keys
  {
  }

  /** One round takes the replayed set from the known keys before to those after. */
  lemma {:induction false} ReplayRound(log: seq<HotplugEvent>, before: Devices, r: Round)
    requires Replay(log) == Some(before.Keys) && Reports(before, r)
    ensures Replay(log + r.departures + r.arrivals) == Some(r.after.Keys)
  {
    var after := r.after;
    NamesAreKeys(r.departures, before.Keys - after.Keys, before);
    NamesAreKeys(r.arrivals, after.Keys - before.Keys, after);
    ReplayBatch(log, r.departures, before.Keys, true);
    var kept := before.Keys - (before.Keys - after.Keys);
    ReplayBatch(log + r.departures, r.arrivals, kept, false);
    assert kept + (after.Keys - before.Keys) == after.Keys;
  }

  lemma {:induction false} RunGrows(rounds: seq<Round>, r: Round)
    requires IsRun(rounds) && Reports(KnownAfter(rounds), r)
    ensures IsRun(rounds + [r]) && KnownAfter(rounds + [r]) == r.after
    ensures EventsOf(rounds + [r]) == EventsOf(rounds) + r.departures + r.arrivals
  {
  }

  /** The devices of the last enumeration of a run, none before the first. */
  function LastListed(rounds: seq<Round>): seq<DeviceInfo> {
    if rounds == [] then [] else rounds[|rounds| - 1].listed
  }

  /** Replaying every event of a run, from nothing, gives exactly the keys of the devices last enumerated. */
  lemma {:induction false} RunReplays(rounds: seq<Round>)
    requires IsRun(rounds)
    ensures Replay(EventsOf(rounds)) == Some(KnownAfter(rounds).Keys)
    ensures IsListing(KnownAfter(rounds), LastListed(rounds))
    ensures Replay(EventsOf(rounds)).value == set d | d in LastListed(rounds) :: KeyOf(d)
  {
    if rounds == [] {
      assert KnownAfter(rounds).Keys == {};
    } else {
      var n := |rounds| - 1;
      RunReplays(rounds[..n]);
      ReplayRound(EventsOf(rounds[..n]), KnownAfter(rounds[..n]), rounds[n]);
    }
    ListedKeys(KnownAfter(rounds), LastListed(rounds));
  }

  lemma {:induction false} ListedKeys(m: Devices, listed: seq<DeviceInfo>)
    requires IsListing(m, listed)
    ensures m.Keys == set d | d in listed :: KeyOf(d)
  {
    forall k | k in m ensures exists d :: d in listed && KeyOf(d) == k {
      var i :| IsLastOfKey(listed, i) && KeyOf(listed[i]) == k && m[k] == listed[i];
      assert listed[i] in listed;
    }
  }

  /** For one key, whether each of its events is an arrival. */
  function ArrivalsOf(events: seq<HotplugEvent>, key: DeviceKey): seq<bool> {
    if events == [] then []
    else
      var n := |events| - 1;
      ArrivalsOf(events[..n], key) + (if KeyOf(events[n].info) == key then [events[n].Arrived?] else [])
  }

  /** Arrived, Left, Arrived, ... */
  predicate Alternates(bs: seq<bool>) { forall i :: 0 <= i < |bs| ==> bs[i] == (i % 2 == 0) }

  /** Events that replay alternate for every key, starting with an arrival; it is present after an odd number. */
  lemma {:induction false} ReplayAlternates(events: seq<HotplugEvent>, key: DeviceKey)
    requires Replay(events).Some?
    ensures Alternates(ArrivalsOf(events, key))
    ensures key in Replay(events).value <==> |ArrivalsOf(events, key)| % 2 == 1
  {
    if events != [] {
      ReplayAlternates(events[..|events| - 1], key);
    }
  }

  /** The beginning of events that replay also replays. */
  lemma {:induction false} ReplayPrefix(events: seq<HotplugEvent>, more: seq<HotplugEvent>)
    requires Replay(events + more).Some?
    ensures Replay(events).Some?
  {
    if more == [] {
      assert events + more == events;
    } else {
      var n := |more| - 1;
      assert events + more == events + more[..n] + [more[n]];
      ReplayOne(events + more[..n], more[n]);
      ReplayPrefix(events, more[..n]);
    }
  }

  /** So in every run each key's events alternate, and the run ends with it present exactly when known. */
  lemma {:induction false} RunAlternates(rounds: seq<Round>, key: DeviceKey)
    requires IsRun(rounds)
    ensures Alternates(ArrivalsOf(EventsOf(rounds), key))
    ensures key in KnownAfter(rounds) <==> |ArrivalsOf(EventsOf(rounds), key)| % 2 == 1
  {
    RunReplays(rounds);
    ReplayAlternates(EventsOf(rounds), key);
  }

  // --- The watch ---

  datatype UsbPoll = Announced | Ended | Waiting

  /** What the system answers in one turn of the poll loop. */
  datatype Tick = Tick(settled: bool, usb: UsbPoll, listing: Result<seq<DeviceInfo>, PtpError>)

  datatype Poll = Pending | Ready(event: Option<HotplugEvent>)

  /**
   The enumerations that succeed while these ticks pass: one at the start, and one after each
   announcement once it has settled; announcements while one settles add none.
   */
  function Enumerated(ticks: seq<Tick>, started: bool, settling: bool): seq<seq<DeviceInfo>> {
    if ticks == [] then []
    else
      ListedBy(ticks[0], started, settling)
      + Enumerated(ticks[1..], true, SettlingAfter(ticks[0], started, settling))
  }

  function ListedBy(t: Tick, started: bool, settling: bool): seq<seq<DeviceInfo>> {
    if (!started || (settling && t.settled)) && t.listing.Ok? then [t.listing.value] else []
  }

  function SettlingAfter(t: Tick, started: bool, settling: bool): bool {
    if !started then settling else if settling then !t.settled else t.usb.Announced?
  }

  /** With this tick the poll returns: something settles, or the bus has nothing new. */
  predicate Returns(t: Tick, started: bool, settling: bool) {
    started && if settling then !t.settled else !t.usb.Announced?
  }

  /** How many ticks pass before a poll without events returns. */
  function Turns(ticks: seq<Tick>, started: bool, settling: bool): nat {
    if ticks == [] then 0
    else if Returns(ticks[0], started, settling) then 1
    else 1 + Turns(ticks[1..], true, SettlingAfter(ticks[0], started, settling))
  }

  lemma {:induction false} NoTurnsLeft(ticks: seq<Tick>, started: bool, settling: bool)
    ensures Turns(ticks[|ticks|..], started, settling) == 0
  {
  }

  lemma {:induction false} TurnsUnfold(ticks: seq<Tick>, i: nat, started: bool, settling: bool)
    requires i < |ticks|
    ensures Turns(ticks[i..], started, settling) ==
            if Returns(ticks[i], started, settling) then 1
            else 1 + Turns(ticks[i + 1..], true, SettlingAfter(ticks[i], started, settling))
  {
    assert ticks[i..][1..] == ticks[i + 1..];
  }

  lemma {:induction false} EnumeratedUnfolds(before: seq<seq<DeviceInfo>>, ticks: seq<Tick>, i: nat, started: bool, settling: bool)
    requires i < |ticks|
    ensures before + Enumerated(ticks[i..], started, settling) ==
            before + ListedBy(ticks[i], started, settling)
            + Enumerated(ticks[i + 1..], true, SettlingAfter(ticks[i], started, settling))
  {
  }

  function ListedIn(rounds: seq<Round>): seq<seq<DeviceInfo>> {
    if rounds == [] then [] else ListedIn(rounds[..|rounds| - 1]) + [rounds[|rounds| - 1].listed]
  }

  class DeviceWatch {
    var known: Devices
    var pending: seq<HotplugEvent>
    var settling: bool
    var started: bool
    /** Events handed to the consumer, and the successful enumerations behind them. */
    ghost var emitted: seq<HotplugEvent>
    ghost var rounds: seq<Round>

    /** Handed-out and pending events are those of a run, which ends at the known set. */
    ghost predicate Valid()
      reads this
    {
      && Keyed(known) && known == KnownAfter(rounds) && IsRun(rounds)
      && emitted + pending == EventsOf(rounds)
      && (!started ==> rounds == [] && pending == [])
    }

    /**
     At every moment, replaying what was handed out and what is pending gives exactly the devices last
     enumerated, which are the known ones, and what was handed out alternates Arrived, Left for every key, from Arrived on.
     */
    lemma {:induction false} WatchIsTrue()
      requires Valid()
      ensures Replay(emitted + pending) == Some(known.Keys) && IsListing(known, LastListed(rounds))
      ensures known.Keys == set d | d in LastListed(rounds) :: KeyOf(d)
      ensures forall key :: Alternates(ArrivalsOf(emitted, key))
    {
      hide IsRun, KnownAfter, EventsOf, Keyed, Replay, ArrivalsOf, Alternates, IsListing, KeyOf, LastListed;
      RunReplays(rounds);
      ReplayPrefix(emitted, pending);
      forall key ensures Alternates(ArrivalsOf(emitted, key)) {
        ReplayAlternates(emitted, key);
      }
    }

    constructor ()
      ensures Valid() && emitted == [] && rounds == [] && !started
    {
      known, pending, settling, started := map[], [], false, false;
      emitted, rounds := [], [];
    }

    /** A failed enumeration changes nothing: it says nothing about what is plugged in. */
    method Enumerate(listing: Result<seq<DeviceInfo>, PtpError>)
      requires Valid() && started
      modifies this`known, this`pending, this`rounds
      ensures Valid()
      ensures old(rounds) <= rounds
      ensures ListedIn(rounds) == ListedIn(old(rounds)) + (if listing.Ok? then [listing.value] else [])
      ensures listing.Err? ==> rounds == old(rounds) && pending == old(pending) && known == old(known)
    {
      hide IsRun, KnownAfter, EventsOf, Reports, IsListing, Keyed;
      if listing.Ok? {
        ghost var round;
        var events;
        known, events, round := Diff(known, listing.value);
        RunGrows(rounds, round);
        pending := pending + events;
        rounds := rounds + [round];
        assert rounds[..|rounds| - 1] == old(rounds);
        assert emitted + pending == emitted + old(pending) + round.departures + round.arrivals;
      }
    }

    /** Hands out the oldest pending event. */
    method TakePending() returns (event: HotplugEvent)
      requires Valid() && pending != []
      modifies this`pending, this`emitted
      ensures Valid() && event == old(pending[0]) && pending == old(pending[1..]) && emitted == old(emitted) + [event]
    {
      hide IsRun, KnownAfter, EventsOf, Keyed;
      event := pending[0];
      emitted := emitted + [event];
      pending := pending[1..];
      assert emitted + pending == old(emitted + pending);
    }

    /** One turn of the loop with nothing pending: what to return, or nothing to go round again. */
    method Turn(tick: Tick) returns (r: Option<Poll>)
      requires Valid() && pending == []
      modifies this`known, this`pending, this`rounds, this`started, this`settling
      ensures Valid() && old(rounds) <= rounds && started
      ensures settling == SettlingAfter(tick, old(started), old(settling))
      ensures ListedIn(rounds) == ListedIn(old(rounds)) + ListedBy(tick, old(started), old(settling))
      ensures r.Some? <==> Returns(tick, old(started), old(settling))
      ensures r.Some? ==> pending == [] && r.value == if !old(settling) && tick.usb.Ended? then Ready(None) else Pending
    {
      hide IsRun, KnownAfter, EventsOf, Keyed, ListedIn;
      if !started {
        started := true;
        Enumerate(tick.listing);
        return None;
      }
      if settling {
        if !tick.settled {
          return Some(Pending);
        }
        settling := false;
        Enumerate(tick.listing);
        return None;
      }
      match tick.usb {
        case Announced =>
          settling := true;
          return None;
        case Ended => return Some(Ready(None));
        case Waiting => return Some(Pending);
      }
    }

    /**
     The next event. `world` scripts the system, one tick per turn of the loop, and `rest` is what
     is left of it for later polls; when it runs out, nothing more is ready. Events come out in the
     order they were reported, and the enumerations behind them are exactly those the ticks call for.
     */
    method PollNext(world: seq<Tick>) returns (r: Poll, rest: seq<Tick>)
      requires Valid()
      modifies this
      ensures Valid() && old(rounds) <= rounds
      ensures Replay(emitted + pending) == Some(known.Keys) && forall key :: Alternates(ArrivalsOf(emitted, key))
      ensures IsListing(known, LastListed(rounds))
      ensures r.Ready? && r.event.Some? ==> emitted == old(emitted) + [r.event.value]
      ensures !(r.Ready? && r.event.Some?) ==> emitted == old(emitted) && pending == []
      ensures |rest| <= |world| && rest == world[|world| - |rest|..]
      ensures ListedIn(rounds) + Enumerated(rest, started, settling) ==
              ListedIn(old(rounds)) + Enumerated(world, old(started), old(settling))
      ensures var turns := Turns(world, old(started), old(settling));
              if r.Ready? && r.event.Some? then |world| - |rest| <= turns else |world| - |rest| == turns
      ensures r == Ready(None) ==> |rest| < |world| && world[|world| - |rest| - 1].usb.Ended?
    {
      hide IsRun, KnownAfter, EventsOf, Keyed, ListedIn, Enumerated, ListedBy, SettlingAfter, Turns, Returns, Replay, ArrivalsOf, Alternates, IsListing,
        LastListed, KeyOf;
      ghost var all := ListedIn(rounds) + Enumerated(world, started, settling);
      var i := 0;
      assert world[0..] == world;
      while true
        invariant Valid() && emitted == old(emitted) && old(rounds) <= rounds
        invariant i <= |world| && ListedIn(rounds) + Enumerated(world[i..], started, settling) == all
        invariant i + Turns(world[i..], started, settling) == Turns(world, old(started), old(settling))
        decreases |world| - i
      {
        if pending != [] {
          var event := TakePending();
          WatchIsTrue();
          return Ready(Some(event)), world[i..];
        }
        WatchIsTrue();
        if i == |world| {
          NoTurnsLeft(world, started, settling);
          return Pending, [];
        }
        EnumeratedUnfolds(ListedIn(rounds), world, i, started, settling);
        TurnsUnfold(world, i, started, settling);
        var turn := Turn(world[i]);
        i := i + 1;
        if turn.Some? {
          WatchIsTrue();
          return turn.value, world[i..];
        }
      }
    }
  }
}
