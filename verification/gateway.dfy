/**
  * The per-connection real-time gateway: handshake authentication, and the handlers of
  * join-room, leave-room, play/pause/seek, video-changed, video-state-sync, send-message,
  * typing-start/stop and disconnect. A handler takes the connection and the room collection
  * and returns both (possibly changed) with the events it emits.
  *
  * join-room and send-message look rooms up by durable identifier; video-changed and
  * video-state-sync look them up by code. A channel is the string the client sent.
  */
module Gateway {
  import opened Wrappers
  import opened Seqs
  import opened Text
  import opened Rooms
  import opened Events

  /** A live connection: its user, the room it is bound to, and the channels it has joined
      (joining a room never leaves a channel joined earlier). */
  datatype Connection = Connection(user: UserInfo, currentRoom: Option<RoomId>, joined: set<string>)

  /** The claims the token verifier decodes: three places a user identifier may be found. */
  datatype Claims = Claims(userId: Option<string>, id: Option<string>, objectId: Option<string>)

  /** `decoded.userId || decoded.id || decoded._id`: the first present, non-empty claim. */
  function ClaimedId(c: Claims): (r: Option<string>)
    ensures Truthy(c.userId) ==> r == c.userId
    ensures !Truthy(c.userId) && Truthy(c.id) ==> r == c.id
    ensures !Truthy(c.userId) && !Truthy(c.id) && Truthy(c.objectId) ==> r == c.objectId
    ensures r.None? <==> !Truthy(c.userId) && !Truthy(c.id) && !Truthy(c.objectId)
  {
    if Truthy(c.userId) then c.userId
    else if Truthy(c.id) then c.id
    else if Truthy(c.objectId) then c.objectId
    else None
  }

  /** The handshake. A missing or empty token, and a token the verifier rejects, fail with
      "Authentication error"; an identifier naming no user fails with "User not found";
      otherwise the connection starts unbound. `verify` stands for the token verifier and
      `users` for the user records (identifier to user name). */
  function Authenticate(token: Option<string>, verify: string -> Option<Claims>, users: map<UserId, string>)
    : (r: Result<Connection, string>)
    ensures !Truthy(token) ==> r == Failure("Authentication error")
    ensures Truthy(token) && verify(token.value).None? ==> r == Failure("Authentication error")
    ensures r.Success? ==>
      && Truthy(token) && verify(token.value).Some?
      && ClaimedId(verify(token.value).value) == Some(r.value.user.id)
      && r.value.user.id in users && r.value.user.username == users[r.value.user.id]
      && r.value.currentRoom.None? && r.value.joined == {}
    ensures Truthy(token) && verify(token.value).Some? ==>
      (r.Success? <==> ClaimedId(verify(token.value).value).Some? && ClaimedId(verify(token.value).value).value in users)
    ensures Truthy(token) && verify(token.value).Some?
            && (ClaimedId(verify(token.value).value).None? || ClaimedId(verify(token.value).value).value !in users) ==>
      r == Failure("User not found")
    ensures r.Failure? ==> r.error in {"Authentication error", "User not found"}
  {
    if !Truthy(token) then Failure("Authentication error")
    else match verify(token.value)
      case None => Failure("Authentication error")
      case Some(claims) =>
        match ClaimedId(claims)
        case None => Failure("User not found")
        case Some(uid) =>
          if uid in users then Success(Connection(UserInfo(uid, users[uid]), None, {}))
          else Failure("User not found")
  }

  /** A video as a client describes it in `video-changed`. */
  datatype ClientVideo = ClientVideo(url: Option<string>, title: Option<string>,
                                     originalName: Option<string>, filename: Option<string>)

  /** A chat message as a client sends it. */
  datatype ClientMessage = ClientMessage(text: Option<string>, kind: Option<string>)

  /** The events a client can send. `Option` payloads model a missing object. */
  datatype Inbound =
    | JoinRoomIn(roomId: string)
    | LeaveRoomIn(roomId: string)
    | PlayIn(roomId: string, currentTime: real)
    | PauseIn(roomId: string, currentTime: real)
    | SeekIn(roomId: string, currentTime: real)
    | VideoChangedIn(roomId: string, video: Option<ClientVideo>)
    | VideoStateSyncIn(roomId: string)
    | SendMessageIn(roomId: string, message: Option<ClientMessage>)
    | TypingStartIn(roomId: string)
    | TypingStopIn(roomId: string)

  /** The connection and collection after handling an event, and the events emitted. */
  datatype Step = Step(conn: Connection, store: Store, emits: seq<Emit>)

  /** An error answered to the sender alone; nothing else changes. */
  function Refuse(conn: Connection, store: Store, message: string): (r: Step)
    ensures r.conn == conn && r.store == store && r.emits == [Emit(ToSelf, Error(message))]
  {
    Step(conn, store, [Emit(ToSelf, Error(message))])
  }

  /** The connection is bound only to a channel it has joined. */
  predicate BindingJoined(conn: Connection) {
    conn.currentRoom.Some? ==> conn.currentRoom.value.value in conn.joined
  }

  /** join-room's capacity check compares the participant count with a top-level
      `maxParticipants` the room schema does not define; the value reads as undefined, and a
      comparison with undefined is false, so that guard never rejects. */
  function TopLevelMaxParticipants(room: Room): Option<int> {
    None
  }

  /** `count >= limit` where the limit may be undefined. */
  predicate AtLeast(count: int, limit: Option<int>) {
    limit.Some? && count >= limit.value
  }

  /** The successful end of join-room: the connection is bound to the room's channel, the others
      hear `user-joined` first, the requester receives the video state exactly when a video URL
      is set, and `room-joined` comes last. */
  function Admit(conn: Connection, store: Store, room: Room, key: string, now: Time): (r: Step)
    ensures r.store == store && r.conn.user == conn.user
    ensures r.conn.currentRoom == Some(RoomId(key)) && r.conn.joined == conn.joined + {key}
    ensures |r.emits| == (if Truthy(room.currentVideo.url) then 3 else 2)
    ensures r.emits[0] == Emit(ToOthers(key), UserJoined(conn.user))
    ensures r.emits[|r.emits| - 1] == Emit(ToSelf, RoomJoined(room))
    ensures Emit(ToSelf, VideoStateSync(room.currentVideo, now)) in r.emits <==> Truthy(room.currentVideo.url)
    ensures forall k :: 1 <= k < |r.emits| ==> r.emits[k].scope == ToSelf
    ensures forall k :: 0 <= k < |r.emits| ==> !r.emits[k].event.RoomFull?
  {
    var sync := if Truthy(room.currentVideo.url) then [Emit(ToSelf, VideoStateSync(room.currentVideo, now))] else [];
    Step(conn.(currentRoom := Some(RoomId(key)), joined := conn.joined + {key}), store,
         [Emit(ToOthers(key), UserJoined(conn.user))] + sync + [Emit(ToSelf, RoomJoined(room))])
  }

  /** join-room. A missing or inactive room, or a requester with no entry in it, gets an error
      and stays unbound. On success the connection is bound to the room and joins its
      channel, the others in the channel hear `user-joined`, the requester receives the video
      state when a video URL is set, and always receives `room-joined` last. */
  function OnJoinRoom(conn: Connection, store: Store, key: string, now: Time): (r: Step)
    ensures r.store == store && r.conn.user == conn.user
    ensures forall k :: 0 <= k < |r.emits| ==> !r.emits[k].event.RoomFull?
    ensures FindById(store, RoomId(key)).None? ==> r == Refuse(conn, store, "Room not found or is inactive")
    ensures FindById(store, RoomId(key)).Some? ==>
      var room := store[FindById(store, RoomId(key)).value];
      && (!room.isActive ==> r == Refuse(conn, store, "Room not found or is inactive"))
      && (room.isActive && !HasEntry(room.participants, conn.user.id) ==>
            r == Refuse(conn, store, "You are not a participant in this room"))
      && (room.isActive && HasEntry(room.participants, conn.user.id) ==>
            && r.conn.currentRoom == Some(room.id) && r.conn.joined == conn.joined + {key}
            && |r.emits| == (if Truthy(room.currentVideo.url) then 3 else 2)
            && r.emits[0] == Emit(ToOthers(key), UserJoined(conn.user))
            && r.emits[|r.emits| - 1] == Emit(ToSelf, RoomJoined(room))
            && (Emit(ToSelf, VideoStateSync(room.currentVideo, now)) in r.emits <==> Truthy(room.currentVideo.url))
            && forall k :: 1 <= k < |r.emits| ==> r.emits[k].scope == ToSelf)
  {
    match FindById(store, RoomId(key))
    case None => Refuse(conn, store, "Room not found or is inactive")
    case Some(i) =>
      var room := store[i];
      if !room.isActive then Refuse(conn, store, "Room not found or is inactive")
      else if AtLeast(|room.participants|, TopLevelMaxParticipants(room)) then
        Step(conn, store, [Emit(ToSelf, RoomFull("Room is full. Maximum 10 users allowed per room."))])
      else if !(exists k :: 0 <= k < |room.participants| && room.participants[k].user == conn.user.id) then
        Refuse(conn, store, "You are not a participant in this room")
      else Admit(conn, store, room, key, now)
  }

  /** leave-room. Only a connection bound to the named room is affected: it is unbound, leaves
      the channel, and the others hear `user-left`. Anything else is a no-op. */
  function OnLeaveRoom(conn: Connection, key: string): (r: (Connection, seq<Emit>))
    ensures conn.currentRoom == Some(RoomId(key)) ==>
      && r.0 == conn.(currentRoom := None, joined := conn.joined - {key})
      && r.1 == [Emit(ToOthers(key), UserLeft(conn.user))]
    ensures conn.currentRoom != Some(RoomId(key)) ==> r == (conn, [])
  {
    if conn.currentRoom == Some(RoomId(key)) then
      (conn.(currentRoom := None, joined := conn.joined - {key}), [Emit(ToOthers(key), UserLeft(conn.user))])
    else
      (conn, [])
  }

  /** The three playback commands. */
  datatype Transport = Play | Pause | Seek

  /** play-video / pause-video / seek-video: a stateless relay to the whole channel, sender
      included, echoing the reported position with the actor's name. No membership or host
      check is made and nothing is stored. */
  function Relay(conn: Connection, t: Transport, key: string, currentTime: real): (r: seq<Emit>)
    ensures |r| == 1 && r[0].scope == ToChannel(key)
    ensures match r[0].event
      case VideoPlay(time, actor) => t == Play && time == currentTime && actor == conn.user.username
      case VideoPause(time, actor) => t == Pause && time == currentTime && actor == conn.user.username
      case VideoSeek(time, actor) => t == Seek && time == currentTime && actor == conn.user.username
      case _ => false
  {
    match t
    case Play => [Emit(ToChannel(key), VideoPlay(currentTime, conn.user.username))]
    case Pause => [Emit(ToChannel(key), VideoPause(currentTime, conn.user.username))]
    case Seek => [Emit(ToChannel(key), VideoSeek(currentTime, conn.user.username))]
  }

  /** `video.title || video.originalName || 'Uploaded Video'`. */
  function TitleOf(v: ClientVideo): (r: string)
    ensures Truthy(v.title) ==> r == v.title.value
    ensures !Truthy(v.title) && Truthy(v.originalName) ==> r == v.originalName.value
    ensures !Truthy(v.title) && !Truthy(v.originalName) ==> r == "Uploaded Video"
  {
    if Truthy(v.title) then v.title.value
    else if Truthy(v.originalName) then v.originalName.value
    else "Uploaded Video"
  }

  /** The record video-changed stores: the client's URL and file name, the fallback title, the
      platform (an upload exactly when a file name is given), play head 0 and stopped. The
      record replaces the old one whole: kind, identifier, setter and `setAt` are dropped. */
  function ChangedVideo(v: ClientVideo, now: Time): (r: Video)
    ensures r.currentTime == 0.0 && !r.isPlaying
    ensures r.url == v.url && r.filename == v.filename && r.title == Some(TitleOf(v))
    ensures r.platform == Some(if Truthy(v.filename) then UploadPlatform else External)
    ensures r.lastUpdated == Some(now) && r.kind.None? && r.setBy.None? && r.setAt.None?
  {
    Video(None, v.url, None, Some(TitleOf(v)), None, 0.0, false, None, None, Some(now),
          Some(if Truthy(v.filename) then UploadPlatform else External), v.filename)
  }

  /** video-changed. The room is looked up by code (active or not); a non-participant is
      refused; a missing video object is a handler failure; otherwise the new record replaces
      the room's video and is broadcast to the whole channel. */
  function OnVideoChanged(conn: Connection, store: Store, key: string, video: Option<ClientVideo>, now: Time): (r: Step)
    ensures r.conn == conn
    ensures FindAnyByCode(store, RoomCode(key)).None? ==> r == Refuse(conn, store, "Room not found")
    ensures FindAnyByCode(store, RoomCode(key)).Some? ==>
      var i := FindAnyByCode(store, RoomCode(key)).value;
      && (!HasEntry(store[i].participants, conn.user.id) ==>
            r == Refuse(conn, store, "You are not a participant in this room"))
      && (HasEntry(store[i].participants, conn.user.id) && video.None? ==>
            r == Refuse(conn, store, "Failed to change video"))
      && (HasEntry(store[i].participants, conn.user.id) && video.Some? ==>
            && r.store == store[i := store[i].(currentVideo := ChangedVideo(video.value, now))]
            && r.emits == [Emit(ToChannel(key), VideoChanged(ChangedVideo(video.value, now), conn.user.username, now))]
            && key == store[i].code.value)
  {
    match FindAnyByCode(store, RoomCode(key))
    case None => Refuse(conn, store, "Room not found")
    case Some(i) =>
      if !(exists k :: 0 <= k < |store[i].participants| && store[i].participants[k].user == conn.user.id) then
        Refuse(conn, store, "You are not a participant in this room")
      else if video.None? then
        Refuse(conn, store, "Failed to change video")
      else
        var v := ChangedVideo(video.value, now);
        Step(conn, store[i := store[i].(currentVideo := v)], [Emit(ToChannel(key), VideoChanged(v, conn.user.username, now))])
  }

  /** video-state-sync: the room (by code, active or not) sends its stored video to the
      requester; an unknown code is ignored. */
  function OnVideoStateSync(store: Store, key: string, now: Time): (r: seq<Emit>)
    ensures FindAnyByCode(store, RoomCode(key)).None? ==> r == []
    ensures FindAnyByCode(store, RoomCode(key)).Some? ==>
      r == [Emit(ToSelf, VideoStateSync(store[FindAnyByCode(store, RoomCode(key)).value].currentVideo, now))]
  {
    match FindAnyByCode(store, RoomCode(key))
    case None => []
    case Some(i) => [Emit(ToSelf, VideoStateSync(store[i].currentVideo, now))]
  }

  /** `message.type || 'text'`. */
  function MessageKind(m: ClientMessage): (r: string)
    ensures Truthy(m.kind) ==> r == m.kind.value
    ensures !Truthy(m.kind) ==> r == "text"
  {
    if Truthy(m.kind) then m.kind.value else "text"
  }

  /** send-message. The room is looked up by identifier (active or not); a non-participant is
      refused; a missing message object is a handler failure; otherwise the message, stamped
      with its author and time, goes to the whole channel. Nothing is stored. */
  function OnSendMessage(conn: Connection, store: Store, key: string, message: Option<ClientMessage>, now: Time): (r: seq<Emit>)
    ensures FindById(store, RoomId(key)).None? ==> r == [Emit(ToSelf, Error("Room not found"))]
    ensures FindById(store, RoomId(key)).Some? ==>
      var room := store[FindById(store, RoomId(key)).value];
      && (!HasEntry(room.participants, conn.user.id) ==>
            r == [Emit(ToSelf, Error("You are not a participant in this room."))])
      && (HasEntry(room.participants, conn.user.id) && message.None? ==>
            r == [Emit(ToSelf, Error("Error sending message"))])
      && (HasEntry(room.participants, conn.user.id) && message.Some? ==>
            r == [Emit(ToChannel(key), NewMessage(ChatMessage(message.value.text, MessageKind(message.value), conn.user, now)))])
  {
    match FindById(store, RoomId(key))
    case None => [Emit(ToSelf, Error("Room not found"))]
    case Some(i) =>
      if !(exists k :: 0 <= k < |store[i].participants| && store[i].participants[k].user == conn.user.id) then
        [Emit(ToSelf, Error("You are not a participant in this room."))]
      else if message.None? then
        [Emit(ToSelf, Error("Error sending message"))]
      else
        var m := message.value;
        [Emit(ToChannel(key), NewMessage(ChatMessage(m.text, MessageKind(m), conn.user, now)))]
  }

  /** Dispatch of an inbound event. */
  function Handle(conn: Connection, store: Store, ev: Inbound, now: Time): (r: Step)
    ensures r.conn.user == conn.user
    ensures !ev.VideoChangedIn? ==> r.store == store
    ensures !ev.JoinRoomIn? && !ev.LeaveRoomIn? ==> r.conn == conn
    ensures ev.TypingStartIn? || ev.TypingStopIn? ==>
      r.emits == [Emit(ToOthers(ev.roomId), UserTyping(conn.user.username, ev.TypingStartIn?))]
  {
    match ev
    case JoinRoomIn(key) => OnJoinRoom(conn, store, key, now)
    case LeaveRoomIn(key) =>
      var (c, emits) := OnLeaveRoom(conn, key);
      Step(c, store, emits)
    case PlayIn(key, t) => Step(conn, store, Relay(conn, Play, key, t))
    case PauseIn(key, t) => Step(conn, store, Relay(conn, Pause, key, t))
    case SeekIn(key, t) => Step(conn, store, Relay(conn, Seek, key, t))
    case VideoChangedIn(key, video) => OnVideoChanged(conn, store, key, video, now)
    case VideoStateSyncIn(key) => Step(conn, store, OnVideoStateSync(store, key, now))
    case SendMessageIn(key, message) => Step(conn, store, OnSendMessage(conn, store, key, message, now))
    case TypingStartIn(key) => Step(conn, store, [Emit(ToOthers(key), UserTyping(conn.user.username, true))])
    case TypingStopIn(key) => Step(conn, store, [Emit(ToOthers(key), UserTyping(conn.user.username, false))])
  }

  /** disconnect: the room the connection is bound to (if any) hears `user-disconnected`. The
      binding must be truthy, so a connection bound to the empty key emits nothing. */
  function OnDisconnect(conn: Connection): (r: seq<Emit>)
    ensures conn.currentRoom.Some? && conn.currentRoom.value.value != "" ==>
      r == [Emit(ToOthers(conn.currentRoom.value.value), UserDisconnected(conn.user))]
    ensures conn.currentRoom.None? || conn.currentRoom == Some(RoomId("")) ==> r == []
  {
    if conn.currentRoom.Some? && conn.currentRoom.value.value != "" then
      [Emit(ToOthers(conn.currentRoom.value.value), UserDisconnected(conn.user))]
    else []
  }

  /** Every handler keeps a bound connection inside the channel it is bound to. */
  lemma HandleKeepsBindingJoined(conn: Connection, store: Store, ev: Inbound, now: Time)
    requires BindingJoined(conn)
    ensures BindingJoined(Handle(conn, store, ev, now).conn)
  {
  }

  /** A connection that was never bound, reconnecting and joining, receives the stored video
      (when one is set) and the room: the snapshot equals what the collection holds. */
  lemma ReconnectGetsSnapshot(user: UserInfo, store: Store, i: nat, now: Time)
    requires i < |store| && IdsUnique(store) && store[i].isActive
    requires HasEntry(store[i].participants, user.id) && Truthy(store[i].currentVideo.url)
    ensures var r := Handle(Connection(user, None, {}), store, JoinRoomIn(store[i].id.value), now);
      && Emit(ToSelf, VideoStateSync(store[i].currentVideo, now)) in r.emits
      && Emit(ToSelf, RoomJoined(store[i])) in r.emits
      && r.conn.currentRoom == Some(store[i].id)
  {
    var key := store[i].id.value;
    assert FindById(store, RoomId(key)) == Some(i);
  }

  /** Leaving a room one is bound to and then leaving again does nothing more. */
  lemma LeaveTwice(conn: Connection, key: string)
    ensures var (c1, _) := OnLeaveRoom(conn, key);
      OnLeaveRoom(c1, key) == (c1, [])
  {
  }

  /** video-changed broadcasts on the channel named by the room's code, while join-room binds
      connections to the channel named by the room's identifier: when the two differ, none of
      what video-changed emits reaches the identifier's channel. */
  lemma VideoChangeMissesJoinedChannel(conn: Connection, store: Store, i: nat, video: Option<ClientVideo>, now: Time)
    requires i < |store| && store[i].code.value != store[i].id.value
    ensures var r := OnVideoChanged(conn, store, store[i].code.value, video, now);
      forall k :: 0 <= k < |r.emits| ==> r.emits[k].scope != ToChannel(store[i].id.value)
  {
  }

  /** A connection admitted to a room under a non-empty key is heard leaving by that room's
      channel when it disconnects. */
  lemma JoinThenDisconnect(conn: Connection, store: Store, key: string, now: Time)
    requires key != "" && FindById(store, RoomId(key)).Some?
    requires var room := store[FindById(store, RoomId(key)).value];
      room.isActive && HasEntry(room.participants, conn.user.id)
    ensures OnDisconnect(OnJoinRoom(conn, store, key, now).conn) == [Emit(ToOthers(key), UserDisconnected(conn.user))]
  {
    var room := store[FindById(store, RoomId(key)).value];
    assert room.id == RoomId(key);
  }

  /** Once a connection has left the room it was bound to, disconnecting emits nothing. */
  lemma LeaveThenDisconnect(conn: Connection, key: string)
    requires conn.currentRoom == Some(RoomId(key))
    ensures OnDisconnect(OnLeaveRoom(conn, key).0) == []
  {
  }

  /** video-changed replaces one room's video and touches neither identifiers, codes nor
      participants, so it keeps the collection well formed. */
  lemma OnVideoChangedKeepsWellFormed(conn: Connection, store: Store, key: string, video: Option<ClientVideo>, now: Time)
    requires WellFormed(store)
    ensures WellFormed(OnVideoChanged(conn, store, key, video, now).store)
  {
    var r := OnVideoChanged(conn, store, key, video, now);
    if r.store != store {
      var i := FindAnyByCode(store, RoomCode(key)).value;
      ReplaceKeepsWellFormed(store, i, r.store[i]);
    }
  }
}
