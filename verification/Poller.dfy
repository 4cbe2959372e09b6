/** One poll: grouping the displays by calendar and refreshing every display of a group (poller.go). */
module Poller {
  import opened Wrappers
  import opened Calendar
  import opened Frame
  import opened Mdpf
  import opened Coherence
  import ETags
  import Cache
  import Fleet

  datatype Room = Room(deviceId: string, name: string, address: string)

  // ---- Grouping

  /** The rooms of one (lower-cased) address, in configuration order. */
  function Members(rooms: seq<Room>, lower: string -> string, key: string): seq<Room> {
    if rooms == [] then []
    else
      var rest := Members(rooms[..|rooms| - 1], lower, key);
      var r := rooms[|rooms| - 1];
      if lower(r.address) == key then rest + [r] else rest
  }

  /** The distinct addresses, in order of first appearance. */
  function Keys(rooms: seq<Room>, lower: string -> string): seq<string> {
    if rooms == [] then []
    else
      var rest := Keys(rooms[..|rooms| - 1], lower);
      var key := lower(rooms[|rooms| - 1].address);
      if key in rest then rest else rest + [key]
  }

  ghost predicate IsGrouping(rooms: seq<Room>, lower: string -> string, groups: seq<seq<Room>>) {
    var keys := Keys(rooms, lower);
    |groups| == |keys| && forall g :: 0 <= g < |keys| ==> groups[g] == Members(rooms, lower, keys[g])
  }

  lemma {:induction false} KeysAreDistinct(rooms: seq<Room>, lower: string -> string)
    ensures forall i, j :: 0 <= i < j < |Keys(rooms, lower)| ==> Keys(rooms, lower)[i] != Keys(rooms, lower)[j]
    ensures forall r <- rooms :: lower(r.address) in Keys(rooms, lower)
  {
    if rooms != [] {
      var init := rooms[..|rooms| - 1];
      KeysAreDistinct(init, lower);
      assert rooms == init + [rooms[|rooms| - 1]];
    }
  }

  lemma {:induction false} MembersAre(rooms: seq<Room>, lower: string -> string, key: string)
    ensures forall r :: r in Members(rooms, lower, key) <==> r in rooms && lower(r.address) == key
    ensures multiset(Members(rooms, lower, key)) <= multiset(rooms)
  {
    if rooms != [] {
      var init := rooms[..|rooms| - 1];
      MembersAre(init, lower, key);
      assert rooms == init + [rooms[|rooms| - 1]];
    }
  }

  /** poller.go: groupByRoomAddress, growing the index map and the groups together. */
  method GroupByRoomAddress(rooms: seq<Room>, lower: string -> string) returns (groups: seq<seq<Room>>)
    ensures IsGrouping(rooms, lower, groups)
  {
    hide Keys, Members, IsGrouping;
    groups := [];
    var index: map<string, nat> := map[];
    assert rooms[..0] == [];
    NoGroups(lower);
    for n := 0 to |rooms|
      invariant IsGrouping(rooms[..n], lower, groups)
      invariant IsIndex(index, Keys(rooms[..n], lower), |groups|)
    {
      var r := rooms[n];
      var key := lower(r.address);
      OneMoreRoom(rooms, lower, n);
      if key in index {
        JoinsGroup(rooms, lower, n, groups, index[key]);
        groups := groups[index[key] := groups[index[key]] + [r]];
      } else {
        OpensGroup(rooms, lower, n, groups);
        index := index[key := |groups|];
        groups := groups + [[r]];
      }
    }
    assert rooms[..|rooms|] == rooms;
  }

  /** Each key found so far is mapped to the position of its group. */
  ghost predicate IsIndex(index: map<string, nat>, keys: seq<string>, groups: nat) {
    && |keys| == groups
    && (forall k :: k in keys ==> k in index)
    && (forall k <- index :: index[k] < |keys| && keys[index[k]] == k)
  }

  lemma NoGroups(lower: string -> string)
    ensures IsGrouping([], lower, []) && Keys([], lower) == []
  {
  }

  lemma {:induction false} NoMembers(rooms: seq<Room>, lower: string -> string, key: string)
    requires forall r <- rooms :: lower(r.address) != key
    ensures Members(rooms, lower, key) == []
  {
    if rooms != [] {
      assert rooms[|rooms| - 1] in rooms;
      NoMembers(rooms[..|rooms| - 1], lower, key);
    }
  }

  lemma OneMoreRoom(rooms: seq<Room>, lower: string -> string, n: nat)
    requires n < |rooms|
    ensures var key := lower(rooms[n].address);
            Keys(rooms[..n + 1], lower)
            == Keys(rooms[..n], lower) + (if key in Keys(rooms[..n], lower) then [] else [key])
    ensures forall k :: Members(rooms[..n + 1], lower, k)
              == Members(rooms[..n], lower, k) + if lower(rooms[n].address) == k then [rooms[n]] else []
  {
    assert rooms[..n + 1][..n] == rooms[..n];
  }

  lemma JoinsGroup(rooms: seq<Room>, lower: string -> string, n: nat, groups: seq<seq<Room>>, g: nat)
    requires n < |rooms| && IsGrouping(rooms[..n], lower, groups)
    requires g < |groups| && Keys(rooms[..n], lower)[g] == lower(rooms[n].address)
    ensures IsGrouping(rooms[..n + 1], lower, groups[g := groups[g] + [rooms[n]]])
  {
    OneMoreRoom(rooms, lower, n);
    KeysAreDistinct(rooms[..n], lower);
    hide Keys, Members;
  }

  lemma OpensGroup(rooms: seq<Room>, lower: string -> string, n: nat, groups: seq<seq<Room>>)
    requires n < |rooms| && IsGrouping(rooms[..n], lower, groups)
    requires lower(rooms[n].address) !in Keys(rooms[..n], lower)
    ensures IsGrouping(rooms[..n + 1], lower, groups + [[rooms[n]]])
  {
    OneMoreRoom(rooms, lower, n);
    KeysAreDistinct(rooms[..n], lower);
    NoMembers(rooms[..n], lower, lower(rooms[n].address));
    hide Keys, Members;
  }

  /** Every room is in exactly one group, and that group holds all the rooms of its address and no other. */
  lemma EveryRoomIsGroupedOnce(rooms: seq<Room>, lower: string -> string, groups: seq<seq<Room>>, r: Room)
    requires IsGrouping(rooms, lower, groups) && r in rooms
    ensures exists g :: 0 <= g < |groups| && r in groups[g]
    ensures forall g, g' :: 0 <= g < |groups| && 0 <= g' < |groups| && r in groups[g] && r in groups[g'] ==> g == g'
    ensures forall g, r' :: 0 <= g < |groups| && r in groups[g] ==>
              (r' in groups[g] <==> r' in rooms && lower(r'.address) == lower(r.address))
  {
    KeysAreDistinct(rooms, lower);
    var keys := Keys(rooms, lower);
    forall g | 0 <= g < |keys|
      ensures forall x :: x in groups[g] <==> x in rooms && lower(x.address) == keys[g]
    {
      MembersAre(rooms, lower, keys[g]);
    }
    var i :| 0 <= i < |keys| && keys[i] == lower(r.address);
    assert r in groups[i];
  }

  /** group is the rooms at these positions, in order, and they are the positions of all rooms with the address. */
  ghost predicate Selects(rooms: seq<Room>, lower: string -> string, key: string, at: seq<nat>, group: seq<Room>) {
    && |at| == |group|
    && (forall k :: 0 <= k < |at| ==>
          at[k] < |rooms| && group[k] == rooms[at[k]] && lower(rooms[at[k]].address) == key)
    && (forall k, l :: 0 <= k < l < |at| ==> at[k] < at[l])
    && (forall i: nat :: i < |rooms| && lower(rooms[i].address) == key ==> i in at)
  }

  lemma SelectsOneMore(
    rooms: seq<Room>, lower: string -> string, key: string, at: seq<nat>, group: seq<Room>, n: nat)
    requires |rooms| == n + 1 && Selects(rooms[..n], lower, key, at, group)
    ensures lower(rooms[n].address) != key ==> Selects(rooms, lower, key, at, group)
    ensures lower(rooms[n].address) == key ==> Selects(rooms, lower, key, at + [n], group + [rooms[n]])
  {
    assert forall i: nat :: i < n ==> rooms[..n][i] == rooms[i];
    assert forall i :: i in at + [n] <==> i in at || i == n;
  }

  /** A group is its address's rooms and no others, in the order of the configuration. */
  lemma {:induction false} MembersInOrder(rooms: seq<Room>, lower: string -> string, key: string)
    returns (at: seq<nat>)
    ensures Selects(rooms, lower, key, at, Members(rooms, lower, key))
  {
    at := [];
    if rooms != [] {
      var n := |rooms| - 1;
      at := MembersInOrder(rooms[..n], lower, key);
      hide Selects;
      SelectsOneMore(rooms, lower, key, at, Members(rooms[..n], lower, key), n);
      if lower(rooms[n].address) == key {
        at := at + [n];
      }
    }
  }

  /** Room i is the first with its address. */
  ghost predicate IsFirst(rooms: seq<Room>, lower: string -> string, i: nat)
    requires i < |rooms|
  {
    forall k :: 0 <= k < i ==> lower(rooms[k].address) != lower(rooms[i].address)
  }

  lemma FirstOneMore(rooms: seq<Room>, lower: string -> string, n: nat)
    requires |rooms| == n + 1
    ensures forall i: nat :: i < n ==> (IsFirst(rooms, lower, i) <==> IsFirst(rooms[..n], lower, i))
    ensures lower(rooms[n].address) !in Keys(rooms[..n], lower) ==> IsFirst(rooms, lower, n)
  {
    KeysAreDistinct(rooms[..n], lower);
    forall i | 0 <= i < n && lower(rooms[n].address) !in Keys(rooms[..n], lower)
      ensures lower(rooms[i].address) != lower(rooms[n].address)
    {
      assert rooms[..n][i] in rooms[..n];
    }
    hide Keys;
  }

  /** The k-th group's address first appears at room i. */
  ghost predicate OpensAt(rooms: seq<Room>, lower: string -> string, k: nat, i: nat) {
    && k < |Keys(rooms, lower)| && i < |rooms|
    && Keys(rooms, lower)[k] == lower(rooms[i].address) && IsFirst(rooms, lower, i)
  }

  /** Groups come in the order in which their addresses first appear. */
  lemma {:induction false} KeysInOrder(rooms: seq<Room>, lower: string -> string) returns (first: seq<nat>)
    ensures |first| == |Keys(rooms, lower)|
    ensures forall k: nat :: k < |first| ==> OpensAt(rooms, lower, k, first[k])
    ensures forall k, l :: 0 <= k < l < |first| ==> first[k] < first[l]
  {
    first := [];
    if rooms != [] {
      var n := |rooms| - 1;
      first := KeysInOrder(rooms[..n], lower);
      FirstOneMore(rooms, lower, n);
      hide IsFirst;
      forall k: nat | k < |first| ensures OpensAt(rooms, lower, k, first[k]) && first[k] < n {
        assert OpensAt(rooms[..n], lower, k, first[k]);
      }
      if lower(rooms[n].address) !in Keys(rooms[..n], lower) {
        first := first + [n];
        assert OpensAt(rooms, lower, |first| - 1, n);
      }
      hide OpensAt, Keys;
    }
  }

  // ---- Refreshing one group

  /** What each room name is cached under. */
  type Composer = string -> Cache.Entry

  /** A composed frame has the panel's geometry. */
  type Image = img: Paletted | img.Packable() && img.w == E1002.width && img.h == E1002.height
    witness Paletted(800, 480, 800, seq(384000, _ => 0))

  /**
   * One successful fetch, seen from a display: the schedule's current and next event, and the image under each name.
   */
  datatype Polled = Polled(
    crc: Crc, cur: Option<Calendar.Event>, next: Option<Calendar.Event>, compose: string -> Image)

  /** The entry under a name: the packed image, encoded, with its hash as ETag, and the events found. */
  function EntryUnder(f: Polled, name: string): Cache.Entry {
    PolledEntry(f.crc, Packed(f.compose(name)), f.cur, f.next)
  }

  /** Every display of the group gets the entry composed for its own name. */
  function Refreshed(m: Cache.Entries, group: seq<Room>, compose: Composer): Cache.Entries {
    if group == [] then m
    else
      var r := group[|group| - 1];
      Refreshed(m, group[..|group| - 1], compose)[r.deviceId := compose(r.name)]
  }

  /** A failed fetch fails the whole group and changes nothing that is served. */
  function Failed(m: Cache.Entries, group: seq<Room>): Cache.Entries {
    if group == [] then m
    else Cache.WithError(Failed(m, group[..|group| - 1]), group[|group| - 1].deviceId)
  }

  function StatusName(s: Status): string {
    match s
    case InMeeting => "in_meeting"
    case StartingSoon => "starting_soon"
    case Available => "available"
  }

  /** Every display of the group is noted with the room's status. */
  function Noted(m: Fleet.Devices, group: seq<Room>, status: string): Fleet.Devices {
    if group == [] then m
    else
      var before, d := Noted(m, group[..|group| - 1], status), group[|group| - 1].deviceId;
      before[d := Fleet.Lookup(before, d).(roomStatus := status)]
  }

  /** After a poll of a sorted schedule a display's status says whether an event is on, or starts within ten minutes. */
  lemma {:induction false} NotedStatus(
    m: Fleet.Devices, group: seq<Room>, schedule: seq<Calendar.Event>, now: Time, r: Room)
    requires Sorted(schedule) && r in group
    ensures var noted := Fleet.Lookup(Noted(m, group, StatusName(StatusAt(schedule, now))), r.deviceId).roomStatus;
            var on := exists e <- schedule :: e.start <= now < e.end;
            var soon := exists e <- schedule :: now <= e.start <= now + 10 * MINUTE;
            && (on ==> noted == "in_meeting") && (!on && soon ==> noted == "starting_soon")
            && (!on && !soon ==> noted == "available")
  {
    StatusInWords(schedule, now);
    NotedIsStatus(m, group, StatusName(StatusAt(schedule, now)), r);
  }

  lemma {:induction false} NotedIsStatus(m: Fleet.Devices, group: seq<Room>, status: string, r: Room)
    requires r in group
    ensures Fleet.Lookup(Noted(m, group, status), r.deviceId).roomStatus == status
  {
    var init, last := group[..|group| - 1], group[|group| - 1];
    if last.deviceId != r.deviceId {
      assert group == init + [last];
      NotedIsStatus(m, init, status, r);
    }
  }

  lemma StatusInWords(schedule: seq<Calendar.Event>, now: Time)
    requires Sorted(schedule)
    ensures var status := StatusName(StatusAt(schedule, now));
            var on := exists e <- schedule :: e.start <= now < e.end;
            var soon := exists e <- schedule :: now <= e.start <= now + 10 * MINUTE;
            && (on ==> status == "in_meeting") && (!on && soon ==> status == "starting_soon")
            && (!on && !soon ==> status == "available")
  {
    SearchFindsTrueStatus(schedule, now);
    hide StatusAt;
    assert (exists e <- schedule :: Covers(e, now)) <==> exists e <- schedule :: e.start <= now < e.end;
    assert (exists e <- schedule :: StartsSoon(e, now)) <==>
        exists e <- schedule :: now <= e.start <= now + 10 * MINUTE;
  }

  /** poller.go: refreshRoom; no schedule means that the calendar did not answer. */
  method RefreshRoom(
    store: Cache.Store, tlm: Fleet.TelemetryStore, group: seq<Room>, schedule: Option<seq<Calendar.Event>>, now: Time,
    crc: Crc, compose: string -> Image)
    returns (composed: nat)
    modifies store, tlm
    ensures schedule.None? ==> store.m == Failed(old(store.m), group) && tlm.m == old(tlm.m) && composed == 0
    ensures schedule.Some? ==>
              var f := Polled(crc, Current(schedule.value, now), Next(schedule.value, now), compose);
              && store.m == Refreshed(old(store.m), group, name => EntryUnder(f, name))
              && tlm.m == Noted(old(tlm.m), group, StatusName(StatusAt(schedule.value, now)))
              && composed == |Names(group)|
    ensures schedule.Some? ==> forall r <- group ::
              var e := Cache.Lookup(store.m, r.deviceId);
              e.cur == Current(schedule.value, now) && e.next == Next(schedule.value, now) && e.etag != "" && !e.failing
  {
    composed := 0;
    if schedule.None? {
      FailGroup(store, group);
    } else {
      composed := ComposeGroup(store, tlm, group, schedule.value, now, crc, compose);
      forall r <- group ensures
          var e := Cache.Lookup(store.m, r.deviceId);
          e.cur == Current(schedule.value, now) && e.next == Next(schedule.value, now) && e.etag != "" && !e.failing
      {
        ghost var f := Polled(crc, Current(schedule.value, now), Next(schedule.value, now), compose);
        RefreshedKnowsSchedule(old(store.m), group, f, r);
      }
    }
  }

  /** After a poll every display of the group has what was composed for some name. */
  lemma {:induction false} RefreshedIsComposed(m: Cache.Entries, group: seq<Room>, compose: Composer, r: Room)
    returns (name: string)
    requires r in group
    ensures Cache.Lookup(Refreshed(m, group, compose), r.deviceId) == compose(name)
  {
    var init, last := group[..|group| - 1], group[|group| - 1];
    if last.deviceId == r.deviceId {
      name := last.name;
    } else {
      assert group == init + [last];
      name := RefreshedIsComposed(m, init, compose, r);
    }
  }

  /** It has a frame and the events found, whatever was there before. */
  lemma RefreshedKnowsSchedule(m: Cache.Entries, group: seq<Room>, f: Polled, r: Room)
    requires r in group
    ensures var e := Cache.Lookup(Refreshed(m, group, name => EntryUnder(f, name)), r.deviceId);
            e.cur == f.cur && e.next == f.next && e.etag != "" && !e.failing
  {
    hide EntryUnder, Refreshed;
    var name := RefreshedIsComposed(m, group, name => EntryUnder(f, name), r);
    EntryKnowsSchedule(f, name);
  }

  /** And the device can show from it the image composed for its own name, and learns that image's hash. */
  lemma RefreshedDelivers(m: Cache.Entries, group: seq<Room>, f: Polled, r: Room)
    requires AreDistinct(group) && r in group
    ensures var e := Cache.Lookup(Refreshed(m, group, name => EntryUnder(f, name)), r.deviceId);
            var frame := Packed(f.compose(r.name));
            && e.etag == ETags.ETag(f.crc(frame)) && Delivered(E1002, e.payload) == Some(frame)
            && FetchBody(e.payload).header.crc == f.crc(frame)
  {
    RefreshedServes(m, group, name => EntryUnder(f, name), r.deviceId);
    CachedFrameIsShown(f.crc, Packed(f.compose(r.name)));
    hide Packed, Wire, FetchBody, ShowFrame, Refreshed, ETags.ETag;
  }

  lemma EntryKnowsSchedule(f: Polled, name: string)
    ensures var e := EntryUnder(f, name); e.cur == f.cur && e.next == f.next && e.etag != "" && !e.failing
  {
    hide Packed, Wire;
  }

  method FailGroup(store: Cache.Store, group: seq<Room>)
    modifies store
    ensures store.m == Failed(old(store.m), group)
  {
    hide Cache.WithError;
    assert group[..0] == [];
    for n := 0 to |group|
      invariant store.m == Failed(old(store.m), group[..n])
    {
      assert group[..n + 1][..n] == group[..n];
      store.SetError(group[n].deviceId);
    }
    assert group[..|group|] == group;
  }

  /** The memo: one composition per distinct name, the same entry as composing for each display anew. */
  method ComposeGroup(
    store: Cache.Store, tlm: Fleet.TelemetryStore, group: seq<Room>, schedule: seq<Calendar.Event>, now: Time,
    crc: Crc, compose: string -> Image)
    returns (composed: nat)
    modifies store, tlm
    ensures var f := Polled(crc, Current(schedule, now), Next(schedule, now), compose);
            && store.m == Refreshed(old(store.m), group, name => EntryUnder(f, name))
            && tlm.m == Noted(old(tlm.m), group, StatusName(StatusAt(schedule, now)))
    ensures composed == |Names(group)|
  {
    hide EntryUnder, PolledEntry, Current, Next, Refreshed, Noted, Names, StatusName, StatusAt, RoomStatus;
    composed := 0;
    assert group[..0] == [];
    ghost var f := Polled(crc, Current(schedule, now), Next(schedule, now), compose);
    ghost var composer := name => EntryUnder(f, name);
    ghost var status := StatusName(StatusAt(schedule, now));
    NoDisplays(store.m, tlm.m, composer, status);
    var byName: map<string, Cache.Entry> := map[];
    for n := 0 to |group|
      invariant byName.Keys == Names(group[..n]) && composed == |byName.Keys|
      invariant forall k <- byName :: byName[k] == composer(k)
      invariant store.m == Refreshed(old(store.m), group[..n], composer)
      invariant tlm.m == Noted(old(tlm.m), group[..n], status)
    {
      OneMoreDisplay(old(store.m), old(tlm.m), group, n, composer, status);
      var room := group[n];
      var cur := FindCurrent(schedule, now);
      var next := FindNext(schedule, now);
      StatusUnfold(schedule, now);
      tlm.SetRoomStatus(room.deviceId, StatusName(RoomStatus(cur, next, now)));
      byName, composed := Remember(byName, composed, room.name, crc, compose, cur, next);
      store.Set(room.deviceId, byName[room.name]);
    }
    assert group[..|group|] == group;
  }

  /** The memo has the room's name: composed now if it was not there. */
  method Remember(
    byName: map<string, Cache.Entry>, composed: nat, name: string, crc: Crc, compose: string -> Image,
    cur: Option<Calendar.Event>, next: Option<Calendar.Event>)
    returns (byName': map<string, Cache.Entry>, composed': nat)
    requires composed == |byName.Keys|
    requires forall k <- byName :: byName[k] == EntryUnder(Polled(crc, cur, next, compose), k)
    ensures byName'.Keys == byName.Keys + {name} && composed' == |byName'.Keys|
    ensures forall k <- byName' :: byName'[k] == EntryUnder(Polled(crc, cur, next, compose), k)
  {
    hide EntryUnder, PolledEntry;
    byName', composed' := byName, composed;
    if name !in byName {
      var entry := ComposeEntry(crc, compose(name), cur, next);
      EntryUnderUnfold(Polled(crc, cur, next, compose), name);
      NewName(byName, name, entry);
      byName' := byName[name := entry];
      composed' := composed + 1;
    }
  }

  lemma NewName(byName: map<string, Cache.Entry>, name: string, entry: Cache.Entry)
    requires name !in byName
    ensures byName[name := entry].Keys == byName.Keys + {name} && |byName[name := entry].Keys| == |byName.Keys| + 1
  {
  }

  lemma NoDisplays(m: Cache.Entries, devices: Fleet.Devices, compose: Composer, status: string)
    ensures Refreshed(m, [], compose) == m && Noted(devices, [], status) == devices && Names([]) == {}
  {
  }

  lemma OneMoreDisplay(
    m: Cache.Entries, devices: Fleet.Devices, group: seq<Room>, n: nat, compose: Composer, status: string)
    requires n < |group|
    ensures var r := group[n];
            var before := Noted(devices, group[..n], status);
            && Refreshed(m, group[..n + 1], compose) == Refreshed(m, group[..n], compose)[r.deviceId := compose(r.name)]
            && Noted(devices, group[..n + 1], status)
            == before[r.deviceId := Fleet.Lookup(before, r.deviceId).(roomStatus := status)]
            && Names(group[..n + 1]) == Names(group[..n]) + {r.name}
  {
    assert group[..n + 1][..n] == group[..n];
  }

  lemma StatusUnfold(schedule: seq<Calendar.Event>, now: Time)
    ensures StatusAt(schedule, now) == RoomStatus(Current(schedule, now), Next(schedule, now), now)
  {
  }

  lemma EntryUnderUnfold(f: Polled, name: string)
    ensures EntryUnder(f, name) == PolledEntry(f.crc, Packed(f.compose(name)), f.cur, f.next)
  {
  }

  /** Pack, encode and hash one image. */
  method ComposeEntry(
    crc: Crc, img: Image, cur: Option<Calendar.Event>, next: Option<Calendar.Event>) returns (e: Cache.Entry)
    ensures e == PolledEntry(crc, Packed(img), cur, next)
  {
    hide Packed, Wire, ETags.ETag;
    var packed := Pack(img);
    var payload := Encode(packed, E1002.width, E1002.height, 0, true, crc);
    e := Cache.Entry(payload.bytes, ETags.ETag(payload.crc32), false, cur, next, "");
  }

  ghost predicate AreDistinct(group: seq<Room>) {
    forall i, j :: 0 <= i < j < |group| ==> group[i].deviceId != group[j].deviceId
  }

  function Names(group: seq<Room>): set<string> {
    if group == [] then {} else Names(group[..|group| - 1]) + {group[|group| - 1].name}
  }

  /**
   * After a poll each display of the group serves its own name's frame and every other display what it served before.
   */
  lemma {:induction false} RefreshedServes(m: Cache.Entries, group: seq<Room>, compose: Composer, device: string)
    requires AreDistinct(group)
    ensures forall r <- group :: r.deviceId == device ==>
              Cache.Lookup(Refreshed(m, group, compose), device) == compose(r.name)
    ensures (forall r <- group :: r.deviceId != device) ==>
              Cache.Lookup(Refreshed(m, group, compose), device) == Cache.Lookup(m, device)
  {
    if group != [] {
      var init, last := group[..|group| - 1], group[|group| - 1];
      assert group == init + [last];
      InitIsDistinct(group);
      RefreshedServes(m, init, compose, device);
      hide AreDistinct;
    }
  }

  lemma InitIsDistinct(group: seq<Room>)
    requires group != [] && AreDistinct(group)
    ensures AreDistinct(group[..|group| - 1])
    ensures forall r <- group[..|group| - 1] :: r.deviceId != group[|group| - 1].deviceId
  {
    assert forall i :: 0 <= i < |group| - 1 ==> group[..|group| - 1][i] == group[i];
  }

  /** A failed poll keeps the payload, the ETag and the resolved events of every display. */
  lemma {:induction false} FailedKeepsServing(m: Cache.Entries, group: seq<Room>, device: string)
    ensures var e, e' := Cache.Lookup(m, device), Cache.Lookup(Failed(m, group), device);
            e' == e.(failing := e'.failing)
    ensures (exists r <- group :: r.deviceId == device) ==> Cache.Lookup(Failed(m, group), device).failing
  {
    if group != [] {
      FailedKeepsServing(m, group[..|group| - 1], device);
      assert group == group[..|group| - 1] + [group[|group| - 1]];
    }
  }

  // ---- A poll, as the protocol sees it

  /** One display's share of a poll: its own frame, or another device's entry. */
  function PollEvent(device: string, r: Room, f: Polled): Coherence.Event {
    if r.deviceId == device then PollOk(Packed(f.compose(r.name)), f.cur, f.next)
    else OtherDevice(Cache.Put(r.deviceId, EntryUnder(f, r.name)), 0)
  }

  function PollEvents(device: string, group: seq<Room>, f: Polled): seq<Coherence.Event> {
    if group == [] then []
    else PollEvents(device, group[..|group| - 1], f) + [PollEvent(device, group[|group| - 1], f)]
  }

  function FailEvents(device: string, group: seq<Room>): seq<Coherence.Event> {
    if group == [] then []
    else
      var id := group[|group| - 1].deviceId;
      FailEvents(device, group[..|group| - 1]) + [if id == device then PollFail else OtherDevice(Cache.Fail(id), 0)]
  }

  lemma AfterAppend(crc: Crc, s: System, es: seq<Coherence.Event>, e: Coherence.Event)
    ensures Coherence.After(crc, s, es + [e]) == Step(crc, Coherence.After(crc, s, es), e)
    ensures IsSmoothRun(crc, s, es + [e]) <==>
              var t := Coherence.After(crc, s, es);
              IsSmoothRun(crc, s, es) && Possible(t, e) && !Risks(crc, t, e)
  {
    assert (es + [e])[..|es|] == es;
    hide Step, Possible, Risks;
  }

  /** What refreshRoom does to the cache is, for any one device, a run of the protocol's polls. */
  lemma {:induction false} PollIsARun(s: System, group: seq<Room>, f: Polled)
    ensures var es := PollEvents(s.device, group, f);
            var s' := Coherence.After(f.crc, s, es);
            && IsSmoothRun(f.crc, s, es)
            && s'.entries == Refreshed(s.entries, group, name => EntryUnder(f, name))
            && s'.dev == s.dev && s'.device == s.device
  {
    if group != [] {
      var init, r := group[..|group| - 1], group[|group| - 1];
      PollIsARun(s, init, f);
      AfterAppend(f.crc, s, PollEvents(s.device, init, f), PollEvent(s.device, r, f));
      PollStep(Coherence.After(f.crc, s, PollEvents(s.device, init, f)), r, f);
      hide Step, Possible, Risks, PollEvent, EntryUnder, Coherence.After, IsSmoothRun;
    }
  }

  lemma PollStep(s: System, r: Room, f: Polled)
    ensures var e := PollEvent(s.device, r, f);
            && Possible(s, e) && !Risks(f.crc, s, e)
            && Step(f.crc, s, e).entries == s.entries[r.deviceId := EntryUnder(f, r.name)]
            && Step(f.crc, s, e).dev == s.dev && Step(f.crc, s, e).device == s.device
  {
    hide Packed, PolledEntry;
  }

  /** And so is a poll whose fetch failed. */
  lemma {:induction false} FailureIsARun(crc: Crc, s: System, group: seq<Room>)
    ensures var es := FailEvents(s.device, group);
            var s' := Coherence.After(crc, s, es);
            && IsSmoothRun(crc, s, es) && s'.entries == Failed(s.entries, group)
            && s'.dev == s.dev && s'.device == s.device && s'.frame == s.frame
  {
    if group != [] {
      var init, id := group[..|group| - 1], group[|group| - 1].deviceId;
      FailureIsARun(crc, s, init);
      var e := if id == s.device then PollFail else OtherDevice(Cache.Fail(id), 0);
      AfterAppend(crc, s, FailEvents(s.device, init), e);
      hide Coherence.After, IsSmoothRun;
    }
  }

  /** A poll re-arms the daily repaint of every display it refreshes. */
  lemma PollReArmsRepaint(m: Cache.Entries, group: seq<Room>, f: Polled, r: Room, forcedHour: int, day: string)
    requires AreDistinct(group)
    requires r in group && day != ""
    ensures var after := Refreshed(m, group, name => EntryUnder(f, name));
            Cache.ForceCheck(after, r.deviceId, forcedHour, day, forcedHour).1
  {
    RefreshedServes(m, group, name => EntryUnder(f, name), r.deviceId);
    hide Refreshed;
  }
}
