/**
  * Events the server sends to connected clients, and the audience each one is addressed to.
  * A channel is the name of a broadcast group: the string a client joined with.
  */
module Events {
  import opened Wrappers
  import opened Rooms

  /** The audience of an emitted event: the sending connection only; every connection in the
      channel except the sender; or every connection in the channel, the sender included. */
  datatype Scope = ToSelf | ToOthers(channel: string) | ToChannel(channel: string)

  /** The authenticated user a connection belongs to. */
  datatype UserInfo = UserInfo(id: UserId, username: string)

  /** A chat message as relayed over the real-time channel. */
  datatype ChatMessage = ChatMessage(text: Option<string>, kind: string, author: UserInfo, timestamp: Time)

  datatype Event =
    | Error(message: string)
    | RoomFull(message: string)
    | RoomJoined(room: Room)
    | UserJoined(user: UserInfo)
    | UserLeft(user: UserInfo)
    | UserDisconnected(user: UserInfo)
    | VideoStateSync(video: Video, timestamp: Time)
    | VideoPlay(currentTime: real, playedBy: string)
    | VideoPause(currentTime: real, pausedBy: string)
    | VideoSeek(currentTime: real, seekedBy: string)
      /** `video-changed` sent by the real-time handler: the stored record, who, when. */
    | VideoChanged(video: Video, changedBy: string, timestamp: Time)
      /** `video-changed` sent by the HTTP video endpoints: the descriptor object only. */
    | VideoDescriptorChanged(descriptor: VideoPatch)
    | NewMessage(chat: ChatMessage)
    | UserTyping(username: string, isTyping: bool)

  /** One emitted event with its audience. */
  datatype Emit = Emit(scope: Scope, event: Event)
}
