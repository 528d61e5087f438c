# watchTogether server — a Dafny model of the room and session rules

This project models the core of the watchTogether server: the rules that decide who may
create, join, leave and control a watch-party room; how a room's shared video state is set
and merged; how the real-time gateway authenticates a connection, binds it to a room and fans
events out; how the chat endpoints page, post, react to and delete messages; how uploads are
filtered, named and reported; and the request validation of the room and account routes.

Everything is pure functions over immutable values. The room collection is a `seq<Room>` in
natural order, so a `findOne` is the first match. Every handler takes the collection and gives
back its reply, the new collection and the events it emits. Each emitted event carries its
audience: the sender only, the others in a channel, or the whole channel. Clocks, random
draws, the token verifier and the user records are parameters.

Modules, one file each:

- `wrappers.dfy`: `Option` and `Result`.
- `seqs.dfy`: first match, order-preserving filter, reversal, and their lemmas.
- `text.dfy`: JavaScript white space and `trim`, substring search, truthiness, decimal rendering.
- `rooms.dfy`: the room schema, participant methods, video merge/replace, static queries, and the store invariant.
- `events.dfy`: the server-to-client events and their audiences.
- `youtube.dfy`: the YouTube id extraction regex, with a declarative reading of it.
- `upload.dfy`: the upload middleware and the stand-alone upload route.
- `validation.dfy`: the rule chains of the create-room, register and login routes.
- `room_controller.dfy`: the HTTP room controller.
- `gateway.dfy`: the socket handlers.
- `chat.dfy`: the chat controller.

## Behaviour kept as the code has it

The model keeps these behaviours as the code has them, even where they look unintended:

- **Leaving a room over HTTP.** The user's entries are deleted, not marked inactive. A leaving host hands over to the first remaining entry, active or not. A room with no entries left is deactivated.
- **Playback commands.** play, pause and seek are stateless relays. Nothing is stored, and no membership or host check is made.
- **Capacity on socket join.** join-room's capacity check compares the participant count with a `maxParticipants` field that the room schema does not have at top level. The comparison is with undefined, so it never rejects (`Gateway.OnJoinRoom`).
- **Snapshot on socket join.** The requester receives the video state only when the stored video has a non-empty URL.
- **Channel of video-changed.** video-changed looks the room up by its code and broadcasts on the channel named by the code. join-room binds connections to the channel named by the room's identifier. When the two differ, connections bound by join-room never hear the change (`Gateway.VideoChangeMissesJoinedChannel`).
- **Participant checks.** The gateway's checks accept any entry of the user, active or not.
- **Description rule.** Its message says "less than 200 characters", but a trimmed description of exactly 200 characters passes.
- **Upload errors.** The routes that accept uploads mount the upload middleware but not the exported `handleUploadError`. An upload error therefore reaches the application's last error handler (`Upload.AppErrorHandler`); `handleUploadError` is modelled on its own as well.
- **Chat membership.** The chat handlers test membership with an array `includes` of the requester's identifier against the list of participant records. The model takes that test as a parameter (`Chat.Includes`) rather than fixing its outcome.

## Model

| member | source | states |
|---|---|---|
| Rooms.DefaultVideo | models/Room.js:292-321 | a new room's video has no URL or kind, play head 0, stopped, and `setAt`/`lastUpdated` stamped with the creation time |
| Rooms.ParseKind | models/Room.js:293-296 | a stored video type is accepted exactly when it is one of `youtube`, `direct`, `upload`, and maps back to that spelling |
| Rooms.KindRoundTrip | models/Room.js:293-296 | every video kind survives the round trip through its stored spelling |
| Rooms.PickFreeCode | models/Room.js:365-379 | the retry loop yields a drawn code held by no room, and fails only when every draw is taken |
| Rooms.AssignCode | models/Room.js:252-260 | a new room with a non-empty code keeps it; with an empty code it gets a free drawn code |
| Rooms.AddParticipant | models/Room.js:382-395 | an absent user gets one active entry appended; a present user's first entry is reactivated with a fresh join time, the list keeps its length, and no other room field changes |
| Rooms.RemoveParticipant | models/Room.js:397-407 | only the user's first entry is marked inactive; nothing is deleted, users and join times keep their places, and a user without an entry leaves the room unchanged |
| Rooms.AddParticipantKeepsUnique | models/Room.js:382-395 | adding a participant never gives a user a second entry |
| Rooms.AddParticipantTwice | models/Room.js:382-395 | adding the same user twice adds no second entry: the entry the first call made or reactivated is refreshed in place with the second join time, and every other entry is unchanged |
| Rooms.RemoveThenAdd | models/Room.js:382-407 | removing then re-adding a user turns the user's first entry into a fresh active one in the same place; every other entry is unchanged and the list keeps its length |
| Rooms.VideoFrom | models/Room.js:292-321 | assigning a plain object replaces the video whole: every key it carries (play head and play flag included) is kept as given, every key it lacks is absent, and an absent play head or play flag reads as 0 / stopped |
| Rooms.UpdateVideoState | models/Room.js:410-418 | a merge: a key in the patch overwrites, an absent key keeps the old value, and `lastUpdated` is always refreshed |
| Rooms.SetVideo | models/Room.js:421-431 | a replacement that forces play head 0 and stopped whatever the descriptor says, stamps `setAt`/`lastUpdated`, and keeps the descriptor's kind, URL, id, title, duration and setter |
| Rooms.UpdateWithEmptyPatch | models/Room.js:410-418 | an empty patch changes only `lastUpdated` |
| Rooms.UpdateVideoStateIdempotent | models/Room.js:410-418 | merging the same patch twice equals merging it once |
| Rooms.SetVideoVersusUpdate | models/Room.js:410-431 | a merge keeps a title the patch omits and takes a play flag it carries; a replacement drops the title and overrides the flag |
| Rooms.FindByCode | models/Room.js:434-439 | the result is an active room with the code, and none exists exactly when the result is absent |
| Rooms.FindByCodeUnique | models/Room.js:434-439 | with unique codes, the active room holding a code is the one found |
| Rooms.FindById | socket/socketHandlers.js:253-256 | the result holds the identifier, and none exists exactly when the result is absent |
| Rooms.FindAnyByCode | socket/socketHandlers.js:182-186 | the lookup by code ignores the active flag: the result holds the code, and none exists exactly when the result is absent |
| Rooms.FindUserRooms | models/Room.js:441-453 | exactly the active rooms the user hosts, or in which the user has an entry while some entry is active, are listed |
| Rooms.UserRoomsMixEntries | models/Room.js:441-453 | an active room is listed for any user with an entry there, active or not, as long as some entry, possibly another user's, is active |
| Rooms.ReplaceKeepsWellFormed | models/Room.js:256-357 | replacing a room by one with the same identifier and code, within capacity and listing its host while active, keeps the store invariant |
| RoomController.FindByCodeOrId | controllers/roomController.js:233-242 | the video endpoints find the first room, active or not, whose code or identifier is the key, and fail only when none matches |
| RoomController.CreateRoom | controllers/roomController.js:6-40 | validation failures answer 400 and change nothing; otherwise the trimmed, 1-50 character named room is appended with the requester as host and sole active participant, the schema's default settings (public off, guests allowed, chat on, capacity 10) with the two control settings taken from the request when given and otherwise true and false, the trimmed description, a fresh identifier and a code no room holds |
| RoomController.CreateRoomSavedIffFree | controllers/roomController.js:6-40 | once validation passes, the room is saved (201) exactly when the code it is assigned and the new identifier are both free; otherwise the answer is the 500 "Server error while creating room" and the store is unchanged |
| RoomController.CreateRoomKeepsExplicitFalse | controllers/roomController.js:22-25 | an explicit `false` for a defaulted setting is kept |
| RoomController.JoinRoom | controllers/roomController.js:43-90 | a missing or inactive room answers 404; a full room answers 400 before the duplicate check; a listed user answers 400; otherwise exactly one active entry is appended and nothing else changes |
| RoomController.FullCheckBeforeDuplicate | controllers/roomController.js:57-71 | a listed user of a full room is told the room is full |
| RoomController.LeaveRoom | controllers/roomController.js:93-127 | all the user's entries are deleted with the rest in order; a leaving host hands over to the first remaining entry, and keeps the host field when no entry remains; the room is deactivated exactly when no entry is left; other rooms are untouched |
| RoomController.LeaveVersusRemove | controllers/roomController.js:105-108 | for a listed user, leaving shortens the list while the model method `removeParticipant` does not |
| RoomController.MergeSettings | controllers/roomController.js:207-212 | a setting given in the request overwrites, an absent one keeps its value, and the settings the request cannot name stay |
| RoomController.UpdateRoomSettings | controllers/roomController.js:189-224 | 404 for a missing or inactive room, 403 for a non-host; otherwise only the two given settings change and everything else stays |
| RoomController.DescribeUrl | controllers/roomController.js:249-265 | a YouTube-looking URL yields a descriptor exactly when an id 11 UTF-16 code units long is extracted, with the canonical watch URL; any other URL is a direct video kept verbatim; the descriptor carries title, setter and time |
| RoomController.StoreVideo | controllers/roomController.js:267-273 | the descriptor replaces the room's video and is broadcast on the channel named by the request key |
| RoomController.SetVideoUrl | controllers/roomController.js:227-280 | 404 for an unknown key, 403 for a non-host, 500 for a host who sends no URL, 400 for a YouTube-looking URL without an id; success exactly when the host sends a URL that yields a descriptor, and only a success changes the store, replacing that room's video and broadcasting the descriptor |
| RoomController.UploadPatch | controllers/roomController.js:311-317 | the uploaded video data is of upload kind at the file's public path, titled with the original name, stamped with uploader and time, and carries no other key |
| RoomController.UploadVideo | controllers/roomController.js:283-346 | a missing file answers 400 before any lookup, then 404 and 403; success exactly when a file is given and the host asks, storing an upload-kind video with the file's public URL and original name as title and broadcasting exactly that video data on the key's channel; a refusal emits nothing |
| RoomController.AppendKeepsWellFormed | models/Room.js:256-260 | appending a room with a fresh identifier and code, within capacity and listing its host, keeps the store invariant |
| RoomController.CreateRoomKeepsWellFormed | controllers/roomController.js:6-40 | creating a room keeps identifiers and codes unique, rooms within capacity, and hosts listed |
| RoomController.JoinRoomKeepsWellFormed | controllers/roomController.js:57-79 | joining never takes a room past its capacity and keeps the host listed |
| RoomController.LeaveRoomKeepsWellFormed | controllers/roomController.js:105-120 | leaving keeps the store invariant, including that an active room's host is listed |
| RoomController.UpdateRoomSettingsKeepsWellFormed | controllers/roomController.js:189-224 | changing settings keeps the store invariant |
| RoomController.SetVideoUrlKeepsWellFormed | controllers/roomController.js:227-280 | setting the video by URL keeps the store invariant |
| RoomController.UploadVideoKeepsWellFormed | controllers/roomController.js:283-346 | uploading a video keeps the store invariant |
| YouTube.MarkerAt | controllers/roomController.js:350 | a marker of the regex's alternation is recognised with its length, and lies within the URL |
| YouTube.ExtractYouTubeId | controllers/roomController.js:349-353 | an extracted id has a JavaScript `length` of 11 (UTF-16 code units, so 6 to 11 characters) and contains none of `#`, `&`, `?` |
| YouTube.ExtractYouTubeIdSound | controllers/roomController.js:349-353 | an extracted id is the group the regex captures after the last marker of the first line |
| YouTube.ExtractYouTubeIdComplete | controllers/roomController.js:349-353 | whenever the regex captures a group 11 UTF-16 code units long, that group is returned |
| YouTube.ExtractYouTubeIdWrongLength | controllers/roomController.js:352 | a captured group of any other length in UTF-16 code units yields no id |
| YouTube.LaterMarkerWins | controllers/roomController.js:350 | the greedy prefix makes a later marker in the first line win over an earlier one |
| YouTube.NoMarkerNoId | controllers/roomController.js:350-352 | without a marker in the first line there is no id |
| Upload.FileFilter | middleware/upload.js:23-32 | a file is accepted exactly when its MIME type is one of the seven allowed; a rejection carries the invalid-type message |
| Upload.CheckSize | middleware/upload.js:34-40 | a file passes exactly when it has at most 2 GiB; a larger one raises the library's size error |
| Upload.ExtName | middleware/upload.js:19 | the extension is the suffix from the last dot of the last path segment, empty when that dot is the segment's first character or absent |
| Upload.StoredFilename | middleware/upload.js:17-20 | the stored name starts with `video-`, ends with the original name's extension, and has no dot or slash before that extension |
| Upload.StoredFilenameKeepsExtension | middleware/upload.js:17-20 | the extension of the stored name is the extension of the original name |
| Upload.StoredFilenameInjective | middleware/upload.js:17-20 | equal stored names come from equal times and random numbers and carry equal extensions |
| Upload.HandleUploadError | middleware/upload.js:43-66 | the size and unexpected-field library errors become their 400 answers; other errors become a 400 echoing their message exactly when it mentions an invalid file type; everything else is forwarded unchanged |
| Upload.FilterRejectionIs400 | middleware/upload.js:23-66 | taken on its own, the exported error middleware answers a file-filter rejection with a 400 echoing the filter's message (no route mounts it) |
| Upload.OversizeIs400 | middleware/upload.js:34-50 | taken on its own, the exported error middleware answers an oversized file with a 400 and the 2GB message (no route mounts it) |
| Upload.AppErrorHandler | server.js:123-163 | on an upload error, the application's last handler answers a size-limit error with 400 and a 100MB message, the exact message "Only video files allowed!" with 400, and anything else with 500 and its message |
| Upload.AppFilterRejectionIs500 | server.js:153-162 | as deployed, a file-type rejection answers 500 with the filter's message |
| Upload.AppOversizeMisstatesLimit | server.js:147-151 | as deployed, an oversized file is told the maximum is 100MB, while a file just over 100MB passes the 2GB size limit |
| Upload.UploadRoute | routes/videoRoutes.js:72-122 | a missing file is rejected before a missing room identifier; success exactly when both are given, with the public URL, the original name, and a title that is the original name up to its first dot |
| Validation.CreateRoomErrors | routes/roomRoutes.js:20-30 | a create request passes exactly when the trimmed name has 1-50 characters and the description is absent or at most 200 after trimming; each failing rule contributes its message |
| Validation.BlankNameRejected | routes/roomRoutes.js:21-24 | a missing or all-white-space name is rejected |
| Validation.RegisterErrors | routes/authRoutes.js:63-77 | registration passes exactly when the trimmed username has 3-20 characters from `[A-Za-z0-9_]` and the untrimmed password has at least 6; the length, character and password messages each appear exactly when their own rule fails |
| Validation.LoginErrors | routes/authRoutes.js:80-88 | login passes exactly when a non-empty password is given, and otherwise fails with the password-required message alone |
| Validation.PaddedUsernameAccepted | routes/authRoutes.js:64-69 | any amount of white space on either side of a valid username is trimmed away before the rules, so it is accepted |
| Validation.InnerSpaceRejected | routes/authRoutes.js:68-69 | a username with white space inside it but not at its ends fails the character rule, whatever the password |
| Text.Trim | routes/roomRoutes.js:22 | trimming removes white space and only white space from both ends: the result is a contiguous piece of the input with only white space before and after it, and it neither starts nor ends with white space |
| Text.TrimPadded | routes/roomRoutes.js:22 | white space of any length on both sides of a string that neither starts nor ends with white space is exactly what trimming removes |
| Text.Utf16Length | controllers/roomController.js:352 | JavaScript's `length` counts a character outside the Basic Multilingual Plane as two code units and any other as one |
| Text.Contains | controllers/roomController.js:252 | substring search holds exactly when the pattern occurs at some position |
| Text.DecimalRoundTrip | middleware/upload.js:18 | a rendered decimal reads back as the number |
| Gateway.ClaimedId | socket/socketHandlers.js:25 | the user identifier is the first non-empty of `userId`, `id`, `_id`, and absent only when all three are |
| Gateway.Authenticate | socket/socketHandlers.js:7-43 | a missing or empty token and a rejected token fail with "Authentication error"; an unknown user fails with "User not found"; success starts an unbound connection for the claimed, known user; once the token verifies, success holds exactly when a claimed identifier names a known user |
| Gateway.Admit | socket/socketHandlers.js:87-108 | a successful join binds the connection to the channel, tells the others first, sends the video exactly when its URL is non-empty, and sends the room last, with no other event (two events, or three with the video); nothing is a room-full event |
| Gateway.OnJoinRoom | socket/socketHandlers.js:57-113 | a missing or inactive room, or a requester without an entry, gets an error and stays unbound; the room-full event is never emitted; success binds the connection to the room's identifier and joins its channel, tells the others, sends the video only when its URL is non-empty, and sends the room last, with no other event |
| Gateway.OnLeaveRoom | socket/socketHandlers.js:116-133 | only a connection bound to the named room is unbound, and the others hear it leave; anything else is a no-op |
| Gateway.Relay | socket/socketHandlers.js:137-175 | each playback command yields one event to the whole channel, sender included, echoing the position and the actor's name |
| Gateway.TitleOf | socket/socketHandlers.js:201 | the title falls back from the client's title to the original name to "Uploaded Video", skipping empty values |
| Gateway.ChangedVideo | socket/socketHandlers.js:199-207 | the stored record keeps the client's URL and file name, is an upload exactly when a file name is given, and restarts stopped at 0 |
| Gateway.OnVideoChanged | socket/socketHandlers.js:178-227 | unknown code, non-participant and missing video each answer an error and change nothing; otherwise the room found by code gets the new record, broadcast on the code's channel |
| Gateway.OnVideoStateSync | socket/socketHandlers.js:230-245 | the requester receives the stored video of the room with the code, and nothing for an unknown code |
| Gateway.MessageKind | socket/socketHandlers.js:266 | an absent or empty message type becomes "text" |
| Gateway.OnSendMessage | socket/socketHandlers.js:248-293 | unknown room, non-participant and missing message each answer the sender's error; otherwise the stamped message goes to the whole channel |
| Gateway.Handle | socket/socketHandlers.js:57-309 | only video-changed changes the store, only join/leave change the connection, and typing events go to the others with the right flag |
| Gateway.OnDisconnect | socket/socketHandlers.js:312-328 | the others in the bound room hear the disconnect; an unbound connection, or one bound to the empty key, emits nothing |
| Gateway.HandleKeepsBindingJoined | socket/socketHandlers.js:87-89 | a bound connection is always in the channel of its room |
| Gateway.ReconnectGetsSnapshot | socket/socketHandlers.js:97-108 | a fresh connection joining a room it belongs to receives the stored video and the room, and is bound to it |
| Gateway.LeaveTwice | socket/socketHandlers.js:120-129 | a second leave of the same room does nothing |
| Gateway.JoinThenDisconnect | socket/socketHandlers.js:87-328 | a connection admitted to a room under a non-empty key is heard by that channel when it disconnects |
| Gateway.LeaveThenDisconnect | socket/socketHandlers.js:116-328 | after leaving the room it was bound to, a disconnecting connection emits nothing |
| Gateway.OnVideoChangedKeepsWellFormed | socket/socketHandlers.js:178-227 | video-changed keeps the store invariant |
| Gateway.VideoChangeMissesJoinedChannel | socket/socketHandlers.js:182-222 | when a room's code and identifier differ, nothing video-changed emits reaches the identifier's channel |
| Chat.InRoom | controllers/chatController.js:205-212 | the messages of a room, and all of them |
| Chat.Guard | controllers/chatController.js:196-203 | an unknown room answers 404 before membership is looked at; a found room that does not include the requester answers 403 "Access denied"; access is granted exactly when the room exists and includes the requester |
| Chat.CeilDiv | controllers/chatController.js:216 | the ceiling of a quotient: the fewest pages of that size holding the total |
| Chat.TotalPages | controllers/chatController.js:216 | the page count is the ceiling of total over limit, and absent (the source's infinite or NaN quotient) exactly when the limit is 0 |
| Chat.NewestWindow | controllers/chatController.js:205-215 | the newest-first order, skipped and cut, then reversed, is the contiguous run of the history ending `skip` messages before the newest, oldest first |
| Chat.GetMessages | controllers/chatController.js:190-224 | an unknown room answers 404 and a non-member 403, as guarded; a negative skip fails with 500; otherwise the page is that run of the room's messages, with the total and page count |
| Chat.PageWithinLimit | controllers/chatController.js:205-210 | a page never holds more than the limit |
| Chat.ConsecutivePagesTile | controllers/chatController.js:205-215 | page p + 1 followed by page p is one contiguous run, without gap or overlap |
| Chat.GetRoomChatHistory | controllers/chatController.js:229-254 | an unknown room answers 404 and a non-member 403, as guarded; otherwise the recent history is the room's last 50 messages, oldest first |
| Chat.RecentIsFirstPage | controllers/chatController.js:190-254 | the recent history equals the first page at the default size |
| Chat.SendMessage | controllers/chatController.js:259-288 | an unknown room answers 404 and a non-member 403, as guarded, with the log unchanged; otherwise the message is appended and becomes the room's newest, with the type defaulting to "text" only when absent |
| Chat.Upsert | controllers/chatController.js:310-321 | the user ends with a reaction carrying the emoji; the list grows exactly when the user had none; other users' reactions keep place and content; one reaction per user is preserved |
| Chat.UpsertTwice | controllers/chatController.js:310-321 | reacting again replaces the earlier emoji |
| Chat.FindMessage | controllers/chatController.js:298-301 | the result holds the identifier, and none exists exactly when the result is absent |
| Chat.AddReaction | controllers/chatController.js:293-331 | 404 for an unknown message, 500 when its room is gone, 403 when not included; otherwise only that message's reactions change |
| Chat.AddReactionKeepsOnePerUser | controllers/chatController.js:310-323 | reacting keeps every message at one reaction per user |
| Chat.DeleteMessage | controllers/chatController.js:336-359 | 404 for an unknown message; deletion happens exactly when the requester wrote it or hosts its existing room; a non-author answers 500 when the room is gone and 403 when not the host; a refusal leaves the log unchanged |
| Chat.DeleteRemovesExactly | controllers/chatController.js:353 | with unique identifiers a deletion removes exactly the messages with that identifier |

## Left out

- Persistence, population of references, `updatedAt`/`createdAt` bookkeeping and HTTP plumbing are not modelled. A save that fails for reasons other than a taken code or identifier is not modelled.
- Rooms.FindUserRooms: the `updatedAt` descending sort is not modelled; the result is in store order.
- Mongoose casts are not modelled. An identifier that is not a valid ObjectId makes the source's lookups throw. That affects the `_id` alternative of the video endpoints, `findById` in the chat and socket handlers, and join-room. The model compares identifiers as strings.
- Mongoose strict mode is not modelled. The schema has no `platform` or `filename` paths in `currentVideo`, so the database would drop them; the model keeps them as the handler writes them.
- Rooms.VideoFrom: schema defaults for `setAt` and `lastUpdated` are not applied to a wholesale replacement. Only the play head and play flag take their defaults.
- Rooms.UpdateVideoState: the model merges the video's fields. Spreading a stored subdocument as the source does is not modelled.
- Room code generation from `Math.random` is not modelled; it is the `draws` parameter of `Rooms.AssignCode`.
- RoomController.CreateRoom: the `hostOnlyControl` and `allowAnonymous` request values are given or absent booleans. The source defaults only an `undefined` value, so a JSON `null` is kept, and Mongoose casts non-boolean values; neither `null` nor non-boolean setting values are modelled.
- RoomController.CreateRoom: requires that the retry loop is given a free draw when it runs, because the source loop does not terminate otherwise.
- getRoomDetails and getUserRooms in the room controller are not modelled: they only read and populate. The static query they rely on is `Rooms.FindUserRooms`.
- Online status updates on connect and disconnect are not modelled; they touch only user records.
- Handler failures from references that do not resolve are not modelled (a participant whose user no longer exists makes join-room answer "Error joining room").
- Gateway.Authenticate: the token verifier is a parameter, and the user records are a map from identifier to user name.
- E-mail rules of register and login (`isEmail`, `normalizeEmail`) are not modelled.
- Chat.GetMessages: query values are taken as already-parsed numbers with a non-negative limit. Non-numeric and negative query strings are not modelled. Equal creation times are not modelled; the log order stands for the creation order.
- Length counting of validation rules is by Dafny character, which matches the rule library's code-point count except for its special handling of variation selectors.
- Upload.StoredFilename: the time and random number are parameters. That they are a millisecond clock and a draw below 10^9 is not modelled.
- YouTube.ExtractYouTubeId: a Dafny `char` is a Unicode scalar value, so a URL holding an unpaired surrogate code unit cannot be expressed and is not modelled.
- Upload.AppErrorHandler: only the upload errors are modelled. The branches for validation, cast and duplicate-key errors never fire on them and are left out.
- Concurrency, ordering across rooms and per-room serialisation are not modelled; each handler is one atomic step.

## Findings

| source | as written | input that shows it | evidently intended | confidence | as-written member | corrected member |
|---|---|---|---|---|---|---|
| server.js:123-163 | the routes that accept uploads do not mount `handleUploadError`, and the last handler tests for the message "Only video files allowed!", which the file filter never raises; a rejection has no status, so it answers 500 | an upload whose MIME type is `image/png` | a 400 echoing "Invalid file type. Only video files allowed.", as `handleUploadError` answers | medium, not executed | Upload.AppFilterRejectionIs500 | Upload.FilterRejectionIs400 |
| server.js:147-151 | the last handler tells an oversized upload "Maximum size is 100MB", but the limit enforced is 2GB | a file of 100MB plus one byte is accepted; a file over 2GB is told the maximum is 100MB | the 2GB message of `handleUploadError` | medium, not executed | Upload.AppOversizeMisstatesLimit | Upload.OversizeIs400 |
