/**
  * The HTTP room controller: create, join, leave, settings update, set-video-by-URL and
  * upload-video. Each operation takes the room collection and returns the reply, the new
  * collection and the events broadcast; a failed operation returns the collection unchanged.
  */
module RoomController {
  import opened Wrappers
  import opened Seqs
  import opened Text
  import opened Rooms
  import opened Events
  import YouTube
  import Validation
  import Upload

  /** An HTTP reply: status and message(s). */
  datatype Reply = Reply(status: nat, messages: seq<string>)

  /** The reply, the collection after the operation, and the broadcast events. */
  datatype Outcome = Outcome(reply: Reply, store: Store, emits: seq<Emit>)

  /** A failed operation: the collection is untouched and nothing is broadcast. */
  function Reject(store: Store, status: nat, message: string): (r: Outcome)
    ensures r.store == store && r.emits == [] && r.reply.status == status
  {
    Outcome(Reply(status, [message]), store, [])
  }

  const RoomFullMessage: string := "Room is full. Maximum participants limit reached."

  /** The body of a create-room request. */
  datatype CreateRequest = CreateRequest(
    name: Option<string>,
    description: Option<string>,
    hostOnlyControl: Option<bool>,
    allowAnonymous: Option<bool>)

  /** Trims a present value. */
  function TrimOpt(o: Option<string>): Option<string> {
    if o.Some? then Some(Trim(o.value)) else None
  }

  /** The lookup of the video endpoints: the first room, active or not, whose code or
      identifier is the given key. */
  function FindByCodeOrId(store: Store, key: string): (r: Option<nat>)
    ensures r.Some? ==> r.value < |store| && (store[r.value].code.value == key || store[r.value].id.value == key)
    ensures r.None? <==> forall i :: 0 <= i < |store| ==> store[i].code.value != key && store[i].id.value != key
  {
    FirstIndex(store, (room: Room) => room.code.value == key || room.id.value == key)
  }

  // ---------------------------------------------------------------------------
  // createRoom

  /** The code a new room is saved with: its default code, or the retry loop's free draw when
      the default is empty. */
  function NewCode(store: Store, defaultCode: RoomCode, draws: seq<RoomCode>): (c: RoomCode)
    requires defaultCode.value != "" || exists k :: 0 <= k < |draws| && CodeFree(store, draws[k])
    ensures defaultCode.value != "" ==> c == defaultCode
    ensures defaultCode.value == "" ==> CodeFree(store, c) && c in draws
  {
    AssignCode(store, defaultCode, draws).value
  }

  /** `createRoom`. Validation failures answer 400 before any room is built. The requester
      becomes host and sole participant; `hostOnlyControl` and `allowAnonymous` default to true
      and false only when the request leaves them out. The code is the room's default code, or
      one the retry loop draws when that is empty; saving a room whose code or identifier is
      already taken fails (unique indexes). `draws` are the retry loop's random draws, assumed
      to contain a free code when the loop runs. */
  function CreateRoom(store: Store, requester: UserId, req: CreateRequest, newId: RoomId,
                      defaultCode: RoomCode, draws: seq<RoomCode>, now: Time): (r: Outcome)
    requires defaultCode.value != "" || exists k :: 0 <= k < |draws| && CodeFree(store, draws[k])
    ensures r.emits == []
    ensures r.reply.status in {201, 400, 500}
    ensures r.reply.status == 400 <==> Validation.CreateRoomErrors(req.name, req.description) != []
    ensures r.reply.status != 201 ==> r.store == store
    ensures r.reply.status == 201 ==>
      && |r.store| == |store| + 1 && r.store[..|store|] == store
      && var room := r.store[|store|];
      && room.host == requester
      && room.participants == [NewParticipant(requester, now)]
      && room.isActive
      && room.id == newId && IdFree(store, room.id) && CodeFree(store, room.code)
      && (defaultCode.value != "" ==> room.code == defaultCode)
      && room.name == Trim(req.name.value)
      && 1 <= |room.name| <= 50
      && (req.hostOnlyControl.None? ==> room.settings.hostOnlyControl)
      && (req.hostOnlyControl.Some? ==> room.settings.hostOnlyControl == req.hostOnlyControl.value)
      && (req.allowAnonymous.None? ==> !room.settings.allowAnonymous)
      && (req.allowAnonymous.Some? ==> room.settings.allowAnonymous == req.allowAnonymous.value)
      && room.settings == DefaultSettings.(hostOnlyControl := req.hostOnlyControl.GetOr(true),
                                           allowAnonymous := req.allowAnonymous.GetOr(false))
      && room.settings.maxParticipants == 10
      && room.description == TrimOpt(req.description)
      && room.currentVideo.url.None?
  {
    var errs := Validation.CreateRoomErrors(req.name, req.description);
    if errs != [] then
      Outcome(Reply(400, errs), store, [])
    else
      var code := NewCode(store, defaultCode, draws);
      var settings := DefaultSettings.(
        hostOnlyControl := if req.hostOnlyControl.Some? then req.hostOnlyControl.value else true,
        allowAnonymous := if req.allowAnonymous.Some? then req.allowAnonymous.value else false);
      var room := Room(newId, code, Trim(Validation.FieldValue(req.name)), TrimOpt(req.description),
                       requester, [Participant(requester, now, true)], DefaultVideo(now), settings, true);
      if !CodeFree(store, code) || !IdFree(store, newId) then
        Reject(store, 500, "Server error while creating room")
      else
        Outcome(Reply(201, ["Room created successfully"]), store + [room], [])
  }

  /** A valid request is saved exactly when the code it is given and the new identifier are
      both free; otherwise the save fails with the 500 and nothing changes. */
  lemma CreateRoomSavedIffFree(store: Store, requester: UserId, req: CreateRequest, newId: RoomId,
                               defaultCode: RoomCode, draws: seq<RoomCode>, now: Time)
    requires defaultCode.value != "" || exists k :: 0 <= k < |draws| && CodeFree(store, draws[k])
    requires Validation.CreateRoomErrors(req.name, req.description) == []
    ensures var r := CreateRoom(store, requester, req, newId, defaultCode, draws, now);
      && (r.reply.status == 201 <==> CodeFree(store, NewCode(store, defaultCode, draws)) && IdFree(store, newId))
      && (!(CodeFree(store, NewCode(store, defaultCode, draws)) && IdFree(store, newId)) ==>
            r == Reject(store, 500, "Server error while creating room"))
  {
  }

  /** An explicit `false` for a defaulted setting is kept, not replaced by the default. */
  lemma CreateRoomKeepsExplicitFalse(store: Store, requester: UserId, name: string, newId: RoomId,
                                     defaultCode: RoomCode, now: Time)
    requires defaultCode.value != ""
    requires CodeFree(store, defaultCode) && IdFree(store, newId)
    requires 1 <= |Trim(name)| <= 50
    ensures var r := CreateRoom(store, requester, CreateRequest(Some(name), None, Some(false), Some(false)),
                                newId, defaultCode, [], now);
      r.reply.status == 201 && !r.store[|store|].settings.hostOnlyControl
  {
  }

  // ---------------------------------------------------------------------------
  // joinRoom

  /** `joinRoom` by room code. A missing or inactive room answers 404; a full room answers
      400, and this check comes before the duplicate check; a user already listed (active or
      not) answers 400; otherwise exactly one active entry is appended at the end. */
  function JoinRoom(store: Store, code: RoomCode, user: UserId, now: Time): (r: Outcome)
    ensures r.emits == []
    ensures FindByCode(store, code).None? ==> r == Reject(store, 404, "Room not found or inactive")
    ensures FindByCode(store, code).Some? ==>
      var i := FindByCode(store, code).value;
      var ps := store[i].participants;
      && (|ps| >= store[i].settings.maxParticipants ==> r == Reject(store, 400, RoomFullMessage))
      && (|ps| < store[i].settings.maxParticipants && HasEntry(ps, user) ==>
            r == Reject(store, 400, "You are already in this room"))
      && (|ps| < store[i].settings.maxParticipants && !HasEntry(ps, user) ==>
            && r.reply.status == 200
            && r.store == store[i := store[i].(participants := ps + [NewParticipant(user, now)])])
    ensures r.reply.status == 200 || r.store == store
  {
    match FindByCode(store, code)
    case None => Reject(store, 404, "Room not found or inactive")
    case Some(i) =>
      var room := store[i];
      if |room.participants| >= room.settings.maxParticipants then
        Reject(store, 400, RoomFullMessage)
      else if exists k :: 0 <= k < |room.participants| && room.participants[k].user == user then
        Reject(store, 400, "You are already in this room")
      else
        var joined := room.(participants := room.participants + [Participant(user, now, true)]);
        Outcome(Reply(200, ["Successfully joined the room"]), store[i := joined], [])
  }

  /** A user already in a full room is told the room is full, not that they are already in it. */
  lemma FullCheckBeforeDuplicate(store: Store, code: RoomCode, user: UserId, now: Time)
    requires FindByCode(store, code).Some?
    requires var room := store[FindByCode(store, code).value];
      |room.participants| >= room.settings.maxParticipants && HasEntry(room.participants, user)
    ensures JoinRoom(store, code, user, now).reply == Reply(400, [RoomFullMessage])
  {
  }

  // ---------------------------------------------------------------------------
  // leaveRoom

  /** Whether a participant entry belongs to someone other than `user`. */
  predicate NotUser(user: UserId, p: Participant) {
    p.user != user
  }

  /** `leaveRoom` by room code. Every entry of the user is deleted and the others keep their
      order; a leaving host hands over to the first remaining entry; a room left empty is
      deactivated. A missing or inactive room answers 404. */
  function LeaveRoom(store: Store, code: RoomCode, user: UserId): (r: Outcome)
    ensures r.emits == []
    ensures FindByCode(store, code).None? ==> r == Reject(store, 404, "Room not found")
    ensures FindByCode(store, code).Some? ==>
      var i := FindByCode(store, code).value;
      var before := store[i];
      var rest := Filter(before.participants, (p: Participant) => NotUser(user, p));
      && r.reply.status == 200
      && |r.store| == |store|
      && (forall j :: 0 <= j < |store| && j != i ==> r.store[j] == store[j])
      && var after := r.store[i];
      && after == before.(participants := rest, host := after.host, isActive := after.isActive)
      && !HasEntry(after.participants, user)
      && (before.host == user && |rest| > 0 ==>
            FirstIndex(before.participants, (p: Participant) => NotUser(user, p)).Some? &&
            after.host == before.participants[FirstIndex(before.participants, (p: Participant) => NotUser(user, p)).value].user)
      && (before.host != user ==> after.host == before.host)
      && (before.host == user && |rest| == 0 ==> after.host == before.host)
      && (|rest| == 0 <==> !after.isActive)
  {
    match FindByCode(store, code)
    case None => Reject(store, 404, "Room not found")
    case Some(i) =>
      var room := store[i];
      var rest := Filter(room.participants, (p: Participant) => NotUser(user, p));
      var host := if room.host == user && |rest| > 0 then rest[0].user else room.host;
      var active := if |rest| == 0 then false else room.isActive;
      assert |rest| > 0 ==> rest[0] == room.participants[FirstIndex(room.participants, (p: Participant) => NotUser(user, p)).value] by {
        if |rest| > 0 {
          FilterHeadIsFirst(room.participants, (p: Participant) => NotUser(user, p));
        }
      }
      Outcome(Reply(200, ["Successfully left the room"]), store[i := room.(participants := rest, host := host, isActive := active)], [])
  }

  /** Leaving deletes entries, whereas the model method `removeParticipant` only marks one
      inactive: for a listed user the controller shortens the list and the method does not. */
  lemma LeaveVersusRemove(store: Store, code: RoomCode, user: UserId)
    requires FindByCode(store, code).Some?
    requires HasEntry(store[FindByCode(store, code).value].participants, user)
    ensures var i := FindByCode(store, code).value;
      && |LeaveRoom(store, code, user).store[i].participants| < |store[i].participants|
      && |RemoveParticipant(store[i], user).participants| == |store[i].participants|
  {
    var i := FindByCode(store, code).value;
    var ps := store[i].participants;
    var k :| 0 <= k < |ps| && ps[k].user == user;
    FilterDropsOne(ps, (p: Participant) => NotUser(user, p), k);
  }

  // ---------------------------------------------------------------------------
  // updateRoomSettings

  /** The settings after a request: a given field overwrites, an absent one keeps its value,
      and the fields the request cannot name stay. */
  function MergeSettings(s: Settings, hostOnlyControl: Option<bool>, allowAnonymous: Option<bool>): (r: Settings)
    ensures r.hostOnlyControl == hostOnlyControl.GetOr(s.hostOnlyControl)
    ensures r.allowAnonymous == allowAnonymous.GetOr(s.allowAnonymous)
    ensures r.(hostOnlyControl := s.hostOnlyControl, allowAnonymous := s.allowAnonymous) == s
  {
    var s1 := if hostOnlyControl.Some? then s.(hostOnlyControl := hostOnlyControl.value) else s;
    if allowAnonymous.Some? then s1.(allowAnonymous := allowAnonymous.value) else s1
  }

  /** `updateRoomSettings` by room code: only the host may change settings; a field the request
      leaves out keeps its value, and no other setting or room field changes. */
  function UpdateRoomSettings(store: Store, code: RoomCode, user: UserId,
                              hostOnlyControl: Option<bool>, allowAnonymous: Option<bool>): (r: Outcome)
    ensures r.emits == []
    ensures FindByCode(store, code).None? ==> r == Reject(store, 404, "Room not found")
    ensures FindByCode(store, code).Some? ==>
      var i := FindByCode(store, code).value;
      && (store[i].host != user ==> r == Reject(store, 403, "Only room host can update settings"))
      && (store[i].host == user ==>
            && r.reply.status == 200
            && |r.store| == |store|
            && (forall j :: 0 <= j < |store| && j != i ==> r.store[j] == store[j])
            && var s := r.store[i].settings;
            && r.store[i] == store[i].(settings := s)
            && s.(hostOnlyControl := store[i].settings.hostOnlyControl,
                  allowAnonymous := store[i].settings.allowAnonymous) == store[i].settings
            && s.hostOnlyControl == hostOnlyControl.GetOr(store[i].settings.hostOnlyControl)
            && s.allowAnonymous == allowAnonymous.GetOr(store[i].settings.allowAnonymous))
  {
    match FindByCode(store, code)
    case None => Reject(store, 404, "Room not found")
    case Some(i) =>
      var room := store[i];
      if room.host != user then
        Reject(store, 403, "Only room host can update settings")
      else
        var s := MergeSettings(room.settings, hostOnlyControl, allowAnonymous);
        Outcome(Reply(200, ["Room settings updated successfully"]), store[i := room.(settings := s)], [])
  }

  // ---------------------------------------------------------------------------
  // setVideoUrl and uploadVideo

  /** A URL is treated as a YouTube link when it contains either host name literally. */
  predicate IsYouTubeUrl(url: string) {
    Contains(url, "youtube.com") || Contains(url, "youtu.be")
  }

  /** The canonical watch URL of a YouTube id. */
  function WatchUrl(id: string): string {
    "https://www.youtube.com/watch?v=" + id
  }

  /** The descriptor `setVideoUrl` stores for a URL, or `None` when a YouTube-looking URL has
      no extractable id. */
  function DescribeUrl(url: string, title: Option<string>, user: UserId, now: Time): (r: Option<VideoPatch>)
    ensures IsYouTubeUrl(url) ==> (r.None? <==> YouTube.ExtractYouTubeId(url).None?)
    ensures IsYouTubeUrl(url) && r.Some? ==>
      var id := YouTube.ExtractYouTubeId(url).value;
      && r.value.kind == Some(YouTube) && r.value.id == Some(id) && r.value.url == Some(WatchUrl(id))
      && Text.Utf16Length(id) == 11
    ensures !IsYouTubeUrl(url) ==> r.Some? && r.value.kind == Some(Direct) && r.value.url == Some(url) && r.value.id.None?
    ensures r.Some? ==> r.value.title == title && r.value.setBy == Some(user) && r.value.setAt == Some(now)
  {
    var base := EmptyPatch.(title := title, setBy := Some(user), setAt := Some(now));
    if IsYouTubeUrl(url) then
      match YouTube.ExtractYouTubeId(url)
      case None => None
      case Some(id) => Some(base.(kind := Some(YouTube), id := Some(id), url := Some(WatchUrl(id))))
    else
      Some(base.(kind := Some(Direct), url := Some(url)))
  }

  /** Stores `d` as room `i`'s video and broadcasts it on the channel named by `key`. */
  function StoreVideo(store: Store, i: nat, key: string, d: VideoPatch): (r: Outcome)
    requires i < |store|
    ensures r.reply.status == 200
    ensures r.store == store[i := store[i].(currentVideo := VideoFrom(d))]
    ensures r.emits == [Emit(ToChannel(key), VideoDescriptorChanged(d))]
  {
    Outcome(Reply(200, ["Video set"]), store[i := store[i].(currentVideo := VideoFrom(d))],
            [Emit(ToChannel(key), VideoDescriptorChanged(d))])
  }

  /** `setVideoUrl`: looks the room up by code or identifier (active or not); only the host may
      set the video; a missing URL is a server error; a YouTube-looking URL without an
      extractable id answers 400 and keeps the current video; otherwise the descriptor replaces
      the current video and is broadcast to the room. */
  function SetVideoUrl(store: Store, key: string, user: UserId, url: Option<string>,
                       title: Option<string>, now: Time): (r: Outcome)
    ensures FindByCodeOrId(store, key).None? ==> r == Reject(store, 404, "Room not found")
    ensures FindByCodeOrId(store, key).Some? && store[FindByCodeOrId(store, key).value].host != user ==>
      r == Reject(store, 403, "Only host can set video")
    ensures r.reply.status == 200 ==>
      && FindByCodeOrId(store, key).Some? && url.Some?
      && var i := FindByCodeOrId(store, key).value;
      && store[i].host == user
      && |r.emits| == 1 && r.emits[0].scope == ToChannel(key) && r.emits[0].event.VideoDescriptorChanged?
      && var d := r.emits[0].event.descriptor;
      && r.store == store[i := store[i].(currentVideo := VideoFrom(d))]
      && (IsYouTubeUrl(url.value) ==>
            var id := YouTube.ExtractYouTubeId(url.value);
            id.Some? && d.kind == Some(YouTube) && d.id == id && d.url == Some(WatchUrl(id.value)))
      && (!IsYouTubeUrl(url.value) ==> d.kind == Some(Direct) && d.url == url)
      && d.title == title && d.setBy == Some(user)
    ensures FindByCodeOrId(store, key).Some? && store[FindByCodeOrId(store, key).value].host == user
            && url.Some? && IsYouTubeUrl(url.value) && YouTube.ExtractYouTubeId(url.value).None? ==>
      r == Reject(store, 400, "Invalid YouTube URL")
    ensures FindByCodeOrId(store, key).Some? && store[FindByCodeOrId(store, key).value].host == user
            && url.None? ==>
      r == Reject(store, 500, "Server error")
    ensures r.reply.status == 200 <==>
      && FindByCodeOrId(store, key).Some? && store[FindByCodeOrId(store, key).value].host == user
      && url.Some? && DescribeUrl(url.value, title, user, now).Some?
    ensures r.reply.status != 200 ==> r.store == store && r.emits == []
  {
    match FindByCodeOrId(store, key)
    case None => Reject(store, 404, "Room not found")
    case Some(i) =>
      if store[i].host != user then Reject(store, 403, "Only host can set video")
      else if url.None? then Reject(store, 500, "Server error")
      else match DescribeUrl(url.value, title, user, now)
        case None => Reject(store, 400, "Invalid YouTube URL")
        case Some(d) => StoreVideo(store, i, key, d)
  }

  /** The video data an upload sets and broadcasts: an upload-kind video at the file's public
      path, titled with the original file name and stamped with the uploader and the time. */
  function UploadPatch(f: Upload.File, user: UserId, now: Time): (d: VideoPatch)
    ensures d.kind == Some(Upload) && d.url == Some(Upload.UploadUrl(f.filename))
    ensures d.title == Some(f.originalname) && d.setBy == Some(user) && d.setAt == Some(now)
    ensures d.id.None? && d.duration.None? && d.platform.None? && d.filename.None?
    ensures d.currentTime.None? && d.isPlaying.None? && d.lastUpdated.None?
  {
    EmptyPatch.(kind := Some(Upload), url := Some(Upload.UploadUrl(f.filename)),
                title := Some(f.originalname), setBy := Some(user), setAt := Some(now))
  }

  /** `uploadVideo`: a missing file answers 400 before any lookup; then a missing room 404 and
      a non-host 403; otherwise the uploaded file becomes the room's video. */
  function UploadVideo(store: Store, key: string, user: UserId, file: Option<Upload.File>, now: Time): (r: Outcome)
    ensures file.None? ==> r == Reject(store, 400, "No video file uploaded")
    ensures file.Some? && FindByCodeOrId(store, key).None? ==> r == Reject(store, 404, "Room not found")
    ensures file.Some? && FindByCodeOrId(store, key).Some? && store[FindByCodeOrId(store, key).value].host != user ==>
      r == Reject(store, 403, "Only host can upload video")
    ensures r.reply.status == 200 <==>
      file.Some? && FindByCodeOrId(store, key).Some? && store[FindByCodeOrId(store, key).value].host == user
    ensures r.reply.status == 200 ==>
      var i := FindByCodeOrId(store, key).value;
      |r.store| == |store| &&
      var v := r.store[i].currentVideo;
      && r.store == store[i := store[i].(currentVideo := v)]
      && v.kind == Some(Upload) && v.url == Some(Upload.UploadUrl(file.value.filename))
      && v.title == Some(file.value.originalname) && v.setBy == Some(user) && v.setAt == Some(now)
    ensures r.reply.status == 200 ==>
      r.emits == [Emit(ToChannel(key), VideoDescriptorChanged(UploadPatch(file.value, user, now)))]
    ensures r.reply.status != 200 ==> r.emits == []
  {
    if file.None? then Reject(store, 400, "No video file uploaded")
    else match FindByCodeOrId(store, key)
      case None => Reject(store, 404, "Room not found")
      case Some(i) =>
        if store[i].host != user then Reject(store, 403, "Only host can upload video")
        else
          StoreVideo(store, i, key, UploadPatch(file.value, user, now))
  }

  // ---------------------------------------------------------------------------
  // The store invariant

  /** Creating a room keeps identifiers and codes unique and the room within capacity. */
  lemma CreateRoomKeepsWellFormed(store: Store, requester: UserId, req: CreateRequest, newId: RoomId,
                                  defaultCode: RoomCode, draws: seq<RoomCode>, now: Time)
    requires WellFormed(store)
    requires defaultCode.value != "" || exists k :: 0 <= k < |draws| && CodeFree(store, draws[k])
    ensures WellFormed(CreateRoom(store, requester, req, newId, defaultCode, draws, now).store)
  {
    var r := CreateRoom(store, requester, req, newId, defaultCode, draws, now);
    if r.reply.status == 201 {
      var room := r.store[|store|];
      assert r.store == store + [room];
      assert room.participants[0].user == room.host;
      AppendKeepsWellFormed(store, room);
    }
  }

  /** Appending a room with a fresh identifier and code, within capacity and listing its host
      while active, keeps the store well formed. */
  lemma AppendKeepsWellFormed(store: Store, room: Room)
    requires WellFormed(store) && IdFree(store, room.id) && CodeFree(store, room.code)
    requires WithinCapacity(room) && HostListed(room)
    ensures WellFormed(store + [room])
  {
    var s := store + [room];
    assert forall i :: 0 <= i < |store| ==> s[i] == store[i];
  }

  /** Joining never takes a room past its capacity: the full check admits a user only while
      there is room for one more. */
  lemma JoinRoomKeepsWellFormed(store: Store, code: RoomCode, user: UserId, now: Time)
    requires WellFormed(store)
    ensures WellFormed(JoinRoom(store, code, user, now).store)
  {
    var r := JoinRoom(store, code, user, now);
    if r.store != store {
      var i := FindByCode(store, code).value;
      var ps := store[i].participants;
      assert HostListed(r.store[i]) by {
        if store[i].isActive {
          var k :| 0 <= k < |ps| && ps[k].user == store[i].host;
          assert r.store[i].participants[k] == ps[k];
        }
      }
      ReplaceKeepsWellFormed(store, i, r.store[i]);
    }
  }

  /** Leaving only shortens a participant list. */
  lemma LeaveRoomKeepsWellFormed(store: Store, code: RoomCode, user: UserId)
    requires WellFormed(store)
    ensures WellFormed(LeaveRoom(store, code, user).store)
  {
    var r := LeaveRoom(store, code, user);
    if FindByCode(store, code).Some? {
      var i := FindByCode(store, code).value;
      FilterMembers(store[i].participants, (p: Participant) => NotUser(user, p));
      ReplaceKeepsWellFormed(store, i, r.store[i]);
    }
  }

  /** Changing settings touches neither identifiers, codes nor participants. */
  lemma UpdateRoomSettingsKeepsWellFormed(store: Store, code: RoomCode, user: UserId, h: Option<bool>, a: Option<bool>)
    requires WellFormed(store)
    ensures WellFormed(UpdateRoomSettings(store, code, user, h, a).store)
  {
    var r := UpdateRoomSettings(store, code, user, h, a);
    if FindByCode(store, code).Some? && r.store != store {
      var i := FindByCode(store, code).value;
      ReplaceKeepsWellFormed(store, i, r.store[i]);
    }
  }

  /** Setting the video by URL touches neither identifiers, codes nor participants. */
  lemma SetVideoUrlKeepsWellFormed(store: Store, key: string, user: UserId, url: Option<string>,
                                   title: Option<string>, now: Time)
    requires WellFormed(store)
    ensures WellFormed(SetVideoUrl(store, key, user, url, title, now).store)
  {
    var r := SetVideoUrl(store, key, user, url, title, now);
    if r.reply.status == 200 {
      var i := FindByCodeOrId(store, key).value;
      ReplaceKeepsWellFormed(store, i, r.store[i]);
    }
  }

  /** Uploading a video touches neither identifiers, codes nor participants. */
  lemma UploadVideoKeepsWellFormed(store: Store, key: string, user: UserId, file: Option<Upload.File>, now: Time)
    requires WellFormed(store)
    ensures WellFormed(UploadVideo(store, key, user, file, now).store)
  {
    var r := UploadVideo(store, key, user, file, now);
    if r.reply.status == 200 {
      var i := FindByCodeOrId(store, key).value;
      ReplaceKeepsWellFormed(store, i, r.store[i]);
    }
  }
}
