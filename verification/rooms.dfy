/**
  * The room record and its schema-level behaviour: defaults, the video-kind enumeration,
  * the unique-code assignment before the first save, the participant methods, the two
  * video-update methods and the two static queries.
  *
  * The persistent collection is modelled as a sequence of rooms in natural order; a
  * `findOne` is the first room satisfying the filter.
  */
module Rooms {
  import opened Wrappers
  import opened Seqs

  /** A user's identity, the string form of the user's durable identifier. */
  type UserId = string

  /** A wall-clock instant in milliseconds, supplied by the caller. */
  type Time = int

  /** The durable internal identifier of a room (its `_id`). */
  datatype RoomId = RoomId(value: string)

  /** The short shareable code of a room (its `roomCode`); a different key from `RoomId`. */
  datatype RoomCode = RoomCode(value: string)

  /** One entry of a room's participant list. */
  datatype Participant = Participant(user: UserId, joinedAt: Time, isActive: bool)

  datatype Settings = Settings(
    isPublic: bool,
    maxParticipants: int,
    allowGuestUsers: bool,
    chatEnabled: bool,
    hostOnlyControl: bool,
    allowAnonymous: bool)

  const DefaultMaxParticipants: int := 10

  /** The schema defaults of the `settings` sub-record. */
  const DefaultSettings: Settings := Settings(
    isPublic := false,
    maxParticipants := DefaultMaxParticipants,
    allowGuestUsers := true,
    chatEnabled := true,
    hostOnlyControl := true,
    allowAnonymous := false)

  /** The enumeration allowed for `currentVideo.type`. */
  datatype VideoKind = YouTube | Direct | Upload

  /** Where a video set over the real-time channel comes from. */
  datatype Platform = UploadPlatform | External

  /** The stored `currentVideo` record. Absent fields are `None`; `currentTime` and
      `isPlaying` always read with a value (their schema defaults are 0 and false). */
  datatype Video = Video(
    kind: Option<VideoKind>,
    url: Option<string>,
    id: Option<string>,
    title: Option<string>,
    duration: Option<real>,
    currentTime: real,
    isPlaying: bool,
    setBy: Option<UserId>,
    setAt: Option<Time>,
    lastUpdated: Option<Time>,
    platform: Option<Platform>,
    filename: Option<string>)

  /** A plain object describing (part of) a video: every key may be absent. */
  datatype VideoPatch = VideoPatch(
    kind: Option<VideoKind>,
    url: Option<string>,
    id: Option<string>,
    title: Option<string>,
    duration: Option<real>,
    currentTime: Option<real>,
    isPlaying: Option<bool>,
    setBy: Option<UserId>,
    setAt: Option<Time>,
    lastUpdated: Option<Time>,
    platform: Option<Platform>,
    filename: Option<string>)

  /** A patch with no keys at all. */
  const EmptyPatch: VideoPatch := VideoPatch(None, None, None, None, None, None, None, None, None, None, None, None)

  datatype Room = Room(
    id: RoomId,
    code: RoomCode,
    name: string,
    description: Option<string>,
    host: UserId,
    participants: seq<Participant>,
    currentVideo: Video,
    settings: Settings,
    isActive: bool)

  /** The room collection, in natural (insertion) order. */
  type Store = seq<Room>

  // ---------------------------------------------------------------------------
  // Schema defaults and the video-kind enumeration

  /** The `currentVideo` a new room starts with: only the defaulted fields are present. */
  function DefaultVideo(now: Time): (v: Video)
    ensures v.url.None? && v.kind.None?
    ensures v.currentTime == 0.0 && !v.isPlaying
    ensures v.setAt == Some(now) && v.lastUpdated == Some(now)
  {
    Video(None, None, None, None, None, 0.0, false, None, Some(now), Some(now), None, None)
  }

  /** A new participant entry: `isActive` defaults to true. */
  function NewParticipant(user: UserId, now: Time): (p: Participant)
    ensures p.user == user && p.joinedAt == now && p.isActive
  {
    Participant(user, now, true)
  }

  /** The stored spelling of each video kind. */
  function KindName(k: VideoKind): string {
    match k
    case YouTube => "youtube"
    case Direct => "direct"
    case Upload => "upload"
  }

  /** The enumeration validator: a stored `type` string must be one of the three names. */
  function ParseKind(s: string): (r: Option<VideoKind>)
    ensures r.Some? <==> s == "youtube" || s == "direct" || s == "upload"
    ensures r.Some? ==> KindName(r.value) == s
  {
    if s == "youtube" then Some(YouTube)
    else if s == "direct" then Some(Direct)
    else if s == "upload" then Some(Upload)
    else None
  }

  /** Every kind survives a round trip through its stored spelling. */
  lemma KindRoundTrip(k: VideoKind)
    ensures ParseKind(KindName(k)) == Some(k)
  {
  }

  // ---------------------------------------------------------------------------
  // Unique code assignment before the first save

  /** No room in the store, active or not, holds `code`. */
  predicate CodeFree(store: Store, code: RoomCode) {
    forall i :: 0 <= i < |store| ==> store[i].code != code
  }

  /** No room in the store has the identifier `id`. */
  predicate IdFree(store: Store, id: RoomId) {
    forall i :: 0 <= i < |store| ==> store[i].id != id
  }

  /** The retry loop: draw codes until one is held by no room. `draws` are the successive
      random draws; the result is the first free one. */
  function PickFreeCode(store: Store, draws: seq<RoomCode>): (r: Option<RoomCode>)
    ensures r.Some? ==> r.value in draws && CodeFree(store, r.value)
    ensures r.None? <==> forall k :: 0 <= k < |draws| ==> !CodeFree(store, draws[k])
  {
    match FirstIndex(draws, (c: RoomCode) => CodeFree(store, c))
    case Some(k) => Some(draws[k])
    case None => None
  }

  /** The pre-save hook of a new room: a room that already has a (non-empty) code keeps it;
      otherwise the retry loop picks a code no room holds. */
  function AssignCode(store: Store, current: RoomCode, draws: seq<RoomCode>): (r: Option<RoomCode>)
    ensures current.value != "" ==> r == Some(current)
    ensures current.value == "" && r.Some? ==> CodeFree(store, r.value)
    ensures current.value == "" ==> (r.None? <==> forall k :: 0 <= k < |draws| ==> !CodeFree(store, draws[k]))
  {
    if current.value != "" then Some(current) else PickFreeCode(store, draws)
  }

  // ---------------------------------------------------------------------------
  // Participant methods

  /** `p.user` is `user`. */
  predicate IsUser(user: UserId, p: Participant) {
    p.user == user
  }

  /** Some entry, active or not, belongs to `user`. */
  predicate HasEntry(ps: seq<Participant>, user: UserId) {
    exists k :: 0 <= k < |ps| && ps[k].user == user
  }

  /** At most one entry per user. */
  predicate UniqueUsers(ps: seq<Participant>) {
    forall i, j :: 0 <= i < j < |ps| ==> ps[i].user != ps[j].user
  }

  /** The method `addParticipant`: a new active entry is appended when the user has none;
      otherwise the user's first entry is reactivated and its join time refreshed. */
  function AddParticipant(room: Room, user: UserId, now: Time): (r: Room)
    ensures r == room.(participants := r.participants)
    ensures !HasEntry(room.participants, user) ==>
      r.participants == room.participants + [NewParticipant(user, now)]
    ensures HasEntry(room.participants, user) ==>
      && |r.participants| == |room.participants|
      && exists i :: 0 <= i < |room.participants| && room.participants[i].user == user
           && r.participants == room.participants[i := NewParticipant(user, now)]
           && forall k :: 0 <= k < i ==> room.participants[k].user != user
  {
    match FirstIndex(room.participants, (p: Participant) => IsUser(user, p))
    case None =>
      room.(participants := room.participants + [Participant(user, now, true)])
    case Some(i) =>
      var p := room.participants[i];
      room.(participants := room.participants[i := p.(isActive := true, joinedAt := now)])
  }

  /** The method `removeParticipant`: the user's first entry is marked inactive; nothing is
      ever deleted, and a user without an entry leaves the room unchanged. */
  function RemoveParticipant(room: Room, user: UserId): (r: Room)
    ensures r == room.(participants := r.participants)
    ensures |r.participants| == |room.participants|
    ensures forall k :: 0 <= k < |r.participants| ==>
      r.participants[k].user == room.participants[k].user
      && r.participants[k].joinedAt == room.participants[k].joinedAt
    ensures !HasEntry(room.participants, user) ==> r == room
    ensures HasEntry(room.participants, user) ==>
      exists i :: 0 <= i < |room.participants| && room.participants[i].user == user
        && !r.participants[i].isActive
        && (forall k :: 0 <= k < i ==> room.participants[k].user != user)
        && forall k :: 0 <= k < |r.participants| && k != i ==> r.participants[k] == room.participants[k]
  {
    match FirstIndex(room.participants, (p: Participant) => IsUser(user, p))
    case None => room
    case Some(i) =>
      room.(participants := room.participants[i := room.participants[i].(isActive := false)])
  }

  /** Adding a participant never creates a second entry for a user. */
  lemma AddParticipantKeepsUnique(room: Room, user: UserId, now: Time)
    requires UniqueUsers(room.participants)
    ensures UniqueUsers(AddParticipant(room, user, now).participants)
  {
    var ps := room.participants;
    var r := AddParticipant(room, user, now).participants;
    if !HasEntry(ps, user) {
      forall i, j | 0 <= i < j < |r| ensures r[i].user != r[j].user {
        if j == |ps| {
          assert r[j].user == user;
          assert r[i] == ps[i];
        }
      }
    }
  }

  /** Adding the same user twice adds no second entry: the entry the first call made or
      reactivated is the one the second call refreshes, and it carries the second join time. */
  lemma AddParticipantTwice(room: Room, user: UserId, t1: Time, t2: Time)
    ensures var once := AddParticipant(room, user, t1).participants;
      exists i :: 0 <= i < |once| && once[i] == NewParticipant(user, t1)
        && AddParticipant(AddParticipant(room, user, t1), user, t2).participants == once[i := NewParticipant(user, t2)]
  {
    var ps := room.participants;
    var once := AddParticipant(room, user, t1);
    var op := once.participants;
    var twice := AddParticipant(once, user, t2).participants;
    if !HasEntry(ps, user) {
      var i := |ps|;
      assert op[i] == NewParticipant(user, t1);
      assert forall k :: 0 <= k < i ==> op[k] == ps[k];
      var j :| 0 <= j < |op| && op[j].user == user && twice == op[j := NewParticipant(user, t2)]
        && forall k :: 0 <= k < j ==> op[k].user != user;
      assert j == i;
    } else {
      var i :| 0 <= i < |ps| && ps[i].user == user && op == ps[i := NewParticipant(user, t1)]
        && forall k :: 0 <= k < i ==> ps[k].user != user;
      assert op[i] == NewParticipant(user, t1);
      var j :| 0 <= j < |op| && op[j].user == user && twice == op[j := NewParticipant(user, t2)]
        && forall k :: 0 <= k < j ==> op[k].user != user;
      SameFirstEntry(ps, op, user, i, j, NewParticipant(user, t2));
    }
  }

  /** Two lists that differ only at `i`, where both hold `user`'s first entry, have their first
      entry for `user` at the same place, and overwriting it gives equal lists. */
  lemma SameFirstEntry(ps: seq<Participant>, rp: seq<Participant>, user: UserId, i: nat, j: nat, x: Participant)
    requires |rp| == |ps| && i < |ps| && j < |rp|
    requires ps[i].user == user && forall k :: 0 <= k < i ==> ps[k].user != user
    requires rp[i].user == user && forall k :: 0 <= k < |rp| && k != i ==> rp[k] == ps[k]
    requires rp[j].user == user && forall k :: 0 <= k < j ==> rp[k].user != user
    ensures j == i && rp[j := x] == ps[i := x]
  {
    assert j == i;
    var a, b := rp[i := x], ps[i := x];
    assert forall k :: 0 <= k < |a| ==> a[k] == b[k];
  }

  /** Removing then re-adding a user reactivates their first entry in place: the list keeps
      its length and order, and only that entry changes, to a fresh active one. */
  lemma RemoveThenAdd(room: Room, user: UserId, now: Time)
    requires HasEntry(room.participants, user)
    ensures var r := AddParticipant(RemoveParticipant(room, user), user, now);
      exists i :: 0 <= i < |room.participants| && room.participants[i].user == user
        && (forall k :: 0 <= k < i ==> room.participants[k].user != user)
        && r.participants == room.participants[i := NewParticipant(user, now)]
  {
    var ps := room.participants;
    var removed := RemoveParticipant(room, user);
    var rp := removed.participants;
    var i :| 0 <= i < |ps| && ps[i].user == user && !rp[i].isActive
      && (forall k :: 0 <= k < i ==> ps[k].user != user)
      && forall k :: 0 <= k < |rp| && k != i ==> rp[k] == ps[k];
    assert HasEntry(rp, user) by { assert rp[i].user == user; }
    var r := AddParticipant(removed, user, now);
    var j :| 0 <= j < |rp| && rp[j].user == user && r.participants == rp[j := NewParticipant(user, now)]
      && forall k :: 0 <= k < j ==> rp[k].user != user;
    SameFirstEntry(ps, rp, user, i, j, NewParticipant(user, now));
  }

  // ---------------------------------------------------------------------------
  // Video updates: shallow merge versus wholesale replacement

  /** Assigning a plain object to `currentVideo`: the new record holds exactly the keys of
      `d`, except that `currentTime` and `isPlaying` read back with their defaults. */
  function VideoFrom(d: VideoPatch): (v: Video)
    ensures v.kind == d.kind && v.url == d.url && v.id == d.id && v.title == d.title
    ensures v.setBy == d.setBy && v.setAt == d.setAt && v.lastUpdated == d.lastUpdated
    ensures v.duration == d.duration && v.platform == d.platform && v.filename == d.filename
    ensures d.currentTime.None? ==> v.currentTime == 0.0
    ensures d.currentTime.Some? ==> v.currentTime == d.currentTime.value
    ensures d.isPlaying.None? ==> !v.isPlaying
    ensures d.isPlaying.Some? ==> v.isPlaying == d.isPlaying.value
  {
    Video(d.kind, d.url, d.id, d.title, d.duration, d.currentTime.GetOr(0.0), d.isPlaying.GetOr(false),
          d.setBy, d.setAt, d.lastUpdated, d.platform, d.filename)
  }

  /** A field after a shallow merge: the patch's value when the patch has the key, the old
      value otherwise. */
  function Merge<T>(o: Option<T>, patch: Option<T>): (r: Option<T>)
    ensures patch.Some? ==> r == patch
    ensures patch.None? ==> r == o
  {
    if patch.Some? then patch else o
  }

  /** The method `updateVideoState`: the keys of the patch overwrite, every other field keeps
      its value, and `lastUpdated` is refreshed whatever the patch says. */
  function UpdateVideoState(v: Video, patch: VideoPatch, now: Time): (r: Video)
    ensures r.lastUpdated == Some(now)
    ensures patch.currentTime.Some? ==> r.currentTime == patch.currentTime.value
    ensures patch.currentTime.None? ==> r.currentTime == v.currentTime
    ensures patch.isPlaying.Some? ==> r.isPlaying == patch.isPlaying.value
    ensures patch.isPlaying.None? ==> r.isPlaying == v.isPlaying
    ensures patch.url.None? ==> r.url == v.url
    ensures patch.url.Some? ==> r.url == patch.url
    ensures patch.kind.None? ==> r.kind == v.kind
    ensures patch.kind.Some? ==> r.kind == patch.kind
    ensures patch.id.None? ==> r.id == v.id
    ensures patch.id.Some? ==> r.id == patch.id
    ensures patch.title.None? ==> r.title == v.title
    ensures patch.title.Some? ==> r.title == patch.title
    ensures patch.duration.None? ==> r.duration == v.duration
    ensures patch.duration.Some? ==> r.duration == patch.duration
    ensures patch.setBy.None? ==> r.setBy == v.setBy
    ensures patch.setBy.Some? ==> r.setBy == patch.setBy
    ensures patch.setAt.None? ==> r.setAt == v.setAt
    ensures patch.setAt.Some? ==> r.setAt == patch.setAt
    ensures patch.platform.None? ==> r.platform == v.platform
    ensures patch.platform.Some? ==> r.platform == patch.platform
    ensures patch.filename.None? ==> r.filename == v.filename
    ensures patch.filename.Some? ==> r.filename == patch.filename
  {
    v.(kind := Merge(v.kind, patch.kind), url := Merge(v.url, patch.url), id := Merge(v.id, patch.id),
       title := Merge(v.title, patch.title), duration := Merge(v.duration, patch.duration),
       currentTime := Merge(Some(v.currentTime), patch.currentTime).value,
       isPlaying := Merge(Some(v.isPlaying), patch.isPlaying).value,
       setBy := Merge(v.setBy, patch.setBy), setAt := Merge(v.setAt, patch.setAt), lastUpdated := Some(now),
       platform := Merge(v.platform, patch.platform), filename := Merge(v.filename, patch.filename))
  }

  /** The method `setVideo`: the descriptor replaces the whole record; the play head is reset
      to 0 and playback stopped whatever the descriptor says; `setAt` and `lastUpdated` are stamped. */
  function SetVideo(d: VideoPatch, now: Time): (r: Video)
    ensures r.currentTime == 0.0 && !r.isPlaying
    ensures r.setAt == Some(now) && r.lastUpdated == Some(now)
    ensures r.kind == d.kind && r.url == d.url && r.id == d.id && r.title == d.title
    ensures r.setBy == d.setBy && r.duration == d.duration
  {
    VideoFrom(d.(currentTime := Some(0.0), isPlaying := Some(false), setAt := Some(now), lastUpdated := Some(now)))
  }

  /** A patch with no keys only refreshes `lastUpdated`. */
  lemma UpdateWithEmptyPatch(v: Video, now: Time)
    ensures UpdateVideoState(v, EmptyPatch, now) == v.(lastUpdated := Some(now))
  {
  }

  /** Merging is idempotent: applying the same patch again changes nothing more. */
  lemma UpdateVideoStateIdempotent(v: Video, patch: VideoPatch, now: Time)
    ensures UpdateVideoState(UpdateVideoState(v, patch, now), patch, now) == UpdateVideoState(v, patch, now)
  {
  }

  /** Replacement forgets a field the descriptor leaves out, whereas a merge keeps it; and
      replacement overrides a play state the descriptor carries, whereas a merge takes it. */
  lemma SetVideoVersusUpdate(v: Video, d: VideoPatch, now: Time)
    requires d.title.None? && v.title.Some?
    requires d.isPlaying == Some(true)
    ensures UpdateVideoState(v, d, now).title == v.title
    ensures SetVideo(d, now).title.None?
    ensures UpdateVideoState(v, d, now).isPlaying
    ensures !SetVideo(d, now).isPlaying
  {
  }

  // ---------------------------------------------------------------------------
  // Static queries and store invariants

  /** The static `findByCode`: the first active room with the code. */
  function FindByCode(store: Store, code: RoomCode): (r: Option<nat>)
    ensures r.Some? ==> r.value < |store| && store[r.value].code == code && store[r.value].isActive
    ensures r.None? <==> forall i :: 0 <= i < |store| ==> !(store[i].code == code && store[i].isActive)
  {
    FirstIndex(store, (room: Room) => room.code == code && room.isActive)
  }

  /** Lookup by durable identifier (`findById`): the room with the identifier, active or not. */
  function FindById(store: Store, id: RoomId): (r: Option<nat>)
    ensures r.Some? ==> r.value < |store| && store[r.value].id == id
    ensures r.None? <==> IdFree(store, id)
  {
    FirstIndex(store, (room: Room) => room.id == id)
  }

  /** Lookup by code alone (`findOne({roomCode})`), active or not. */
  function FindAnyByCode(store: Store, code: RoomCode): (r: Option<nat>)
    ensures r.Some? ==> r.value < |store| && store[r.value].code == code
    ensures r.None? <==> CodeFree(store, code)
  {
    FirstIndex(store, (room: Room) => room.code == code)
  }

  /** The filter of the static `findUserRooms`. The two conditions on the participant list are
      checked independently, as an array query does: the user's entry and the active entry
      need not be the same one. */
  predicate InUserRooms(room: Room, user: UserId) {
    && room.isActive
    && (|| room.host == user
        || (HasEntry(room.participants, user) && exists k :: 0 <= k < |room.participants| && room.participants[k].isActive))
  }

  /** The static `findUserRooms`, in store order. */
  function FindUserRooms(store: Store, user: UserId): (r: seq<Room>)
    ensures forall k :: 0 <= k < |r| ==> r[k] in store && InUserRooms(r[k], user)
    ensures forall i :: 0 <= i < |store| && InUserRooms(store[i], user) ==> store[i] in r
  {
    FilterMembers(store, (room: Room) => InUserRooms(room, user));
    Filter(store, (room: Room) => InUserRooms(room, user))
  }

  /** An active room is listed for a user who has an entry there, active or not, as long as
      some entry, possibly another user's, is active. */
  lemma UserRoomsMixEntries(store: Store, i: nat, user: UserId, j: nat, k: nat)
    requires i < |store| && store[i].isActive
    requires j < |store[i].participants| && store[i].participants[j].user == user
    requires k < |store[i].participants| && store[i].participants[k].isActive
    ensures store[i] in FindUserRooms(store, user)
  {
    assert InUserRooms(store[i], user);
  }

  /** Room identifiers are unique. */
  predicate IdsUnique(store: Store) {
    forall i, j :: 0 <= i < j < |store| ==> store[i].id != store[j].id
  }

  /** Room codes are unique (the unique index on `roomCode`). */
  predicate CodesUnique(store: Store) {
    forall i, j :: 0 <= i < j < |store| ==> store[i].code != store[j].code
  }

  /** Participant count within the configured capacity. */
  predicate WithinCapacity(room: Room) {
    |room.participants| <= room.settings.maxParticipants
  }

  /** While a room is active its host has an entry in it. */
  predicate HostListed(room: Room) {
    room.isActive ==> HasEntry(room.participants, room.host)
  }

  /** The store invariant the directory operations preserve. */
  predicate WellFormed(store: Store) {
    && IdsUnique(store)
    && CodesUnique(store)
    && (forall i :: 0 <= i < |store| ==> WithinCapacity(store[i]))
    && (forall i :: 0 <= i < |store| ==> HostListed(store[i]))
  }

  /** Replacing a room by one with the same identifier and code, within capacity and listing
      its host while active, keeps the store well formed. */
  lemma ReplaceKeepsWellFormed(store: Store, i: nat, room: Room)
    requires WellFormed(store) && i < |store|
    requires room.id == store[i].id && room.code == store[i].code && WithinCapacity(room) && HostListed(room)
    ensures WellFormed(store[i := room])
  {
  }

  /** With unique codes, `findByCode` finds the one active room holding the code. */
  lemma FindByCodeUnique(store: Store, i: nat)
    requires CodesUnique(store) && i < |store| && store[i].isActive
    ensures FindByCode(store, store[i].code) == Some(i)
  {
  }
}
