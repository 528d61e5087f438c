/**
  * The chat REST handlers: paged history, recent history, posting, reactions and deletion.
  * The message log is kept oldest first (creation order stands for `createdAt`). Room
  * membership is decided by `includes`, which stands for the handlers' array-membership test
  * of the requester's identifier against the room's participant list.
  */
module Chat {
  import opened Wrappers
  import opened Seqs
  import opened Rooms

  datatype MessageId = MessageId(value: string)

  /** One user's reaction to a message. */
  datatype Reaction = Reaction(user: UserId, emoji: string)

  datatype Message = Message(id: MessageId, room: RoomId, user: UserId, text: Option<string>,
                             kind: string, reactions: seq<Reaction>)

  /** All stored messages, oldest first. */
  type Log = seq<Message>

  /** The membership test the handlers apply to a room's participant list. */
  type Includes = (seq<Participant>, UserId) -> bool

  /** A refusal: HTTP status and message. */
  datatype Refusal = Refusal(status: nat, message: string)

  /** The messages of one room, oldest first: every message of the room and nothing else. */
  function InRoom(log: Log, room: RoomId): (r: seq<Message>)
    ensures forall k :: 0 <= k < |r| ==> r[k].room == room && r[k] in log
    ensures forall k :: 0 <= k < |log| && log[k].room == room ==> log[k] in r
  {
    FilterMembers(log, (m: Message) => m.room == room);
    Filter(log, (m: Message) => m.room == room)
  }

  /** The access guard shared by the history and posting handlers: an unknown room is a 404,
      checked before membership; a requester the room does not include is a 403. */
  function Guard(rooms: Store, roomId: RoomId, user: UserId, includes: Includes): (r: Option<Refusal>)
    ensures FindById(rooms, roomId).None? ==> r == Some(Refusal(404, "Room not found"))
    ensures FindById(rooms, roomId).Some? && !includes(rooms[FindById(rooms, roomId).value].participants, user) ==>
      r == Some(Refusal(403, "Access denied"))
    ensures r.None? <==>
      FindById(rooms, roomId).Some? && includes(rooms[FindById(rooms, roomId).value].participants, user)
  {
    match FindById(rooms, roomId)
    case None => Some(Refusal(404, "Room not found"))
    case Some(i) =>
      if !includes(rooms[i].participants, user) then Some(Refusal(403, "Access denied")) else None
  }

  /** `Math.ceil(a / b)` for b > 0. */
  function CeilDiv(a: nat, b: nat): (r: nat)
    requires b > 0
    ensures a <= r * b
    ensures r == 0 || (r - 1) * b < a
  {
    if a == 0 then 0 else 1 + CeilDiv(if a <= b then 0 else a - b, b)
  }

  /** `Math.ceil(total / limit)`: the fewest pages of `limit` holding `total`; with a limit of
      0 the quotient is not a finite number. */
  function TotalPages(total: nat, limit: nat): (r: Option<nat>)
    ensures r.None? <==> limit == 0
    ensures r.Some? ==> r.value * limit >= total && (r.value == 0 || (r.value - 1) * limit < total)
  {
    if limit == 0 then None else Some(CeilDiv(total, limit))
  }

  datatype Page = Page(messages: seq<Message>, totalPages: Option<nat>, currentPage: int, total: nat)

  /** The first message index, oldest first, of the page that skips the `skip` newest
      messages and holds at most `limit` of them (0 meaning no limit), in a history of n. */
  function PageStart(n: nat, skip: nat, limit: nat): nat {
    if limit == 0 then 0 else Max(0, n - skip - limit)
  }

  /** One past the last message index of the same page. */
  function PageEnd(n: nat, skip: nat): nat {
    n - Min(skip, n)
  }

  /** The newest-first order, skipped and cut, then reversed back: a contiguous run of the
      history, oldest first, ending `skip` messages before the newest. */
  function NewestWindow(all: seq<Message>, skip: nat, limit: nat): (r: seq<Message>)
    ensures r == all[PageStart(|all|, skip, limit)..PageEnd(|all|, skip)]
  {
    var lo := Min(skip, |all|);
    var hi := if limit == 0 then |all| else Min(skip + limit, |all|);
    ReverseWindow(all, lo, hi);
    Reverse(Reverse(all)[lo..hi])
  }

  /** The number of newest messages a page skips: `(page - 1) * limit`. */
  function Skip(page: int, limit: nat): int {
    (page - 1) * limit
  }

  /** The paged history. Query values default to page 1 and 50 per page. The room's messages,
      newest first, are skipped by `(page - 1) * limit` and cut at `limit` (0 meaning no cut),
      then reversed; a negative skip is a database error. The total page count is the ceiling
      of total over limit, and is not a number when the limit is 0. */
  function GetMessages(rooms: Store, log: Log, roomId: RoomId, user: UserId, includes: Includes,
                       page: Option<int>, limit: Option<nat>): (r: Result<Page, Refusal>)
    ensures Guard(rooms, roomId, user, includes).Some? ==> r == Failure(Guard(rooms, roomId, user, includes).value)
    ensures FindById(rooms, roomId).None? ==> r == Failure(Refusal(404, "Room not found"))
    ensures FindById(rooms, roomId).Some? && !includes(rooms[FindById(rooms, roomId).value].participants, user) ==>
      r == Failure(Refusal(403, "Access denied"))
    ensures Guard(rooms, roomId, user, includes).None? && Skip(page.GetOr(1), limit.GetOr(50)) < 0 ==>
      r == Failure(Refusal(500, "Server error"))
    ensures r.Success? <==> Guard(rooms, roomId, user, includes).None? && Skip(page.GetOr(1), limit.GetOr(50)) >= 0
    ensures r.Success? ==>
      var p, l, all := page.GetOr(1), limit.GetOr(50), InRoom(log, roomId);
      var skip := Skip(p, l);
      && Guard(rooms, roomId, user, includes).None? && skip >= 0
      && r.value.total == |all| && r.value.currentPage == p
      && r.value.messages == all[PageStart(|all|, skip, l)..PageEnd(|all|, skip)]
      && r.value.totalPages == TotalPages(|all|, l)
  {
    var p, l := page.GetOr(1), limit.GetOr(50);
    match Guard(rooms, roomId, user, includes)
    case Some(refusal) => Failure(refusal)
    case None =>
      var skip := Skip(p, l);
      if skip < 0 then Failure(Refusal(500, "Server error"))
      else
        var all := InRoom(log, roomId);
        Success(Page(NewestWindow(all, skip, l), TotalPages(|all|, l), p, |all|))
  }

  /** A page never holds more than the limit. */
  lemma PageWithinLimit(rooms: Store, log: Log, roomId: RoomId, user: UserId, includes: Includes,
                        page: Option<int>, limit: nat)
    requires limit > 0
    requires GetMessages(rooms, log, roomId, user, includes, page, Some(limit)).Success?
    ensures |GetMessages(rooms, log, roomId, user, includes, page, Some(limit)).value.messages| <= limit
  {
  }

  /** Two consecutive pages of the same size tile the history without gap or overlap: page
      p + 1 followed by page p is the contiguous run that skips the newest `skip` messages,
      where `skip` is page p's skip. */
  lemma ConsecutivePagesTile(rooms: Store, log: Log, roomId: RoomId, user: UserId,
                             includes: Includes, p: int, l: nat, skip: nat)
    requires p >= 1 && l > 0 && skip == Skip(p, l)
    requires Guard(rooms, roomId, user, includes).None?
    ensures GetMessages(rooms, log, roomId, user, includes, Some(p), Some(l)).Success?
    ensures GetMessages(rooms, log, roomId, user, includes, Some(p + 1), Some(l)).Success?
    ensures var all := InRoom(log, roomId);
      GetMessages(rooms, log, roomId, user, includes, Some(p + 1), Some(l)).value.messages
      + GetMessages(rooms, log, roomId, user, includes, Some(p), Some(l)).value.messages
      == all[PageStart(|all|, skip + l, l)..PageEnd(|all|, skip)]
  {
    MulStep(p, l);
    PageSlice(rooms, log, roomId, user, includes, p, l, skip);
    PageSlice(rooms, log, roomId, user, includes, p + 1, l, skip + l);
    SlicesTile(InRoom(log, roomId), skip, l);
  }

  /** The page at a given skip, read off the handler's contract. */
  lemma PageSlice(rooms: Store, log: Log, roomId: RoomId, user: UserId, includes: Includes,
                  p: int, l: nat, skip: nat)
    requires Guard(rooms, roomId, user, includes).None? && skip == Skip(p, l)
    ensures var all, g := InRoom(log, roomId), GetMessages(rooms, log, roomId, user, includes, Some(p), Some(l));
      g.Success? && g.value.messages == all[PageStart(|all|, skip, l)..PageEnd(|all|, skip)]
  {
    assert Some(p).GetOr(1) == p && Some(l).GetOr(50) == l;
  }

  lemma MulStep(p: int, l: nat)
    requires p >= 1
    ensures Skip(p, l) >= 0 && Skip(p + 1, l) == Skip(p, l) + l
  {
  }

  /** Two windows of the same size, one skipping `limit` more, are adjacent. */
  lemma SlicesTile(all: seq<Message>, skip: nat, limit: nat)
    requires limit > 0
    ensures var n := |all|;
      all[PageStart(n, skip + limit, limit)..PageEnd(n, skip + limit)] + all[PageStart(n, skip, limit)..PageEnd(n, skip)]
      == all[PageStart(n, skip + limit, limit)..PageEnd(n, skip)]
  {
    var n := |all|;
    var a, b, c := PageStart(n, skip + limit, limit), PageStart(n, skip, limit), PageEnd(n, skip);
    assert PageEnd(n, skip + limit) == b;
    assert all[a..b] + all[b..c] == all[a..c];
  }

  /** The newest 50, as a window from the end. */
  lemma RecentWindow(all: seq<Message>)
    ensures NewestWindow(all, 0, 50) == all[|all| - Min(50, |all|)..]
  {
    assert PageStart(|all|, 0, 50) == |all| - Min(50, |all|) && PageEnd(|all|, 0) == |all|;
  }

  /** The recent history: the room's last 50 messages, oldest first. */
  function GetRoomChatHistory(rooms: Store, log: Log, roomId: RoomId, user: UserId, includes: Includes)
    : (r: Result<seq<Message>, Refusal>)
    ensures Guard(rooms, roomId, user, includes).Some? ==> r == Failure(Guard(rooms, roomId, user, includes).value)
    ensures FindById(rooms, roomId).None? ==> r == Failure(Refusal(404, "Room not found"))
    ensures FindById(rooms, roomId).Some? && !includes(rooms[FindById(rooms, roomId).value].participants, user) ==>
      r == Failure(Refusal(403, "Access denied"))
    ensures Guard(rooms, roomId, user, includes).None? ==>
      var all := InRoom(log, roomId);
      r.Success? && r.value == all[|all| - Min(50, |all|)..]
  {
    match Guard(rooms, roomId, user, includes)
    case Some(refusal) => Failure(refusal)
    case None =>
      var all := InRoom(log, roomId);
      RecentWindow(all);
      Success(NewestWindow(all, 0, 50))
  }

  /** The recent history is the first page of the paged history at its default size. */
  lemma RecentIsFirstPage(rooms: Store, log: Log, roomId: RoomId, user: UserId, includes: Includes)
    requires Guard(rooms, roomId, user, includes).None?
    ensures GetRoomChatHistory(rooms, log, roomId, user, includes).value
         == GetMessages(rooms, log, roomId, user, includes, None, None).value.messages
  {
  }

  /** A handler's answer. */
  datatype Answer = Refused(refusal: Refusal) | Sent(status: nat, message: Message) | Deleted

  datatype Outcome = Outcome(answer: Answer, log: Log)

  /** Posting a message: guarded like the history; the kind defaults to "text" only when it is
      absent (an empty kind is kept). The message is appended, so it becomes the room's newest. */
  function SendMessage(rooms: Store, log: Log, roomId: RoomId, user: UserId, includes: Includes,
                       text: Option<string>, kind: Option<string>, newId: MessageId): (r: Outcome)
    ensures Guard(rooms, roomId, user, includes).Some? ==>
      r == Outcome(Refused(Guard(rooms, roomId, user, includes).value), log)
    ensures FindById(rooms, roomId).None? ==> r == Outcome(Refused(Refusal(404, "Room not found")), log)
    ensures FindById(rooms, roomId).Some? && !includes(rooms[FindById(rooms, roomId).value].participants, user) ==>
      r == Outcome(Refused(Refusal(403, "Access denied")), log)
    ensures Guard(rooms, roomId, user, includes).None? ==>
      && r.answer.Sent? && r.answer.status == 201
      && r.answer.message == Message(newId, roomId, user, text, kind.GetOr("text"), [])
      && r.log == log + [r.answer.message]
      && InRoom(r.log, roomId) == InRoom(log, roomId) + [r.answer.message]
  {
    match Guard(rooms, roomId, user, includes)
    case Some(refusal) => Outcome(Refused(refusal), log)
    case None =>
      var m := Message(newId, roomId, user, text, kind.GetOr("text"), []);
      FilterConcat(log, [m], (x: Message) => x.room == roomId);
      Outcome(Sent(201, m), log + [m])
  }

  /** Each user has at most one reaction on the message. */
  predicate OneReactionPerUser(rs: seq<Reaction>) {
    forall j, k :: 0 <= j < k < |rs| ==> rs[j].user != rs[k].user
  }

  /** Add or update: the user's first reaction takes the new emoji, or a new reaction is
      appended when the user has none. Other users' reactions keep their place and content. */
  function Upsert(rs: seq<Reaction>, user: UserId, emoji: string): (r: seq<Reaction>)
    ensures exists k :: 0 <= k < |r| && r[k] == Reaction(user, emoji)
    ensures |r| == |rs| || |r| == |rs| + 1
    ensures |r| == |rs| + 1 <==> forall k :: 0 <= k < |rs| ==> rs[k].user != user
    ensures forall k :: 0 <= k < |rs| && rs[k].user != user ==> r[k] == rs[k]
    ensures OneReactionPerUser(rs) ==> OneReactionPerUser(r)
  {
    match FirstIndex(rs, (x: Reaction) => x.user == user)
    case Some(k) =>
      var r := rs[k := Reaction(user, emoji)];
      assert r[k] == Reaction(user, emoji);
      r
    case None =>
      var r := rs + [Reaction(user, emoji)];
      assert r[|rs|] == Reaction(user, emoji);
      r
  }

  /** Reacting again replaces the earlier emoji. */
  lemma UpsertTwice(rs: seq<Reaction>, user: UserId, e1: string, e2: string)
    ensures Upsert(Upsert(rs, user, e1), user, e2) == Upsert(rs, user, e2)
  {
    var p := (x: Reaction) => x.user == user;
    var once := Upsert(rs, user, e1);
    match FirstIndex(rs, p)
    case Some(k) =>
      FirstIndexIs(once, p, k);
    case None =>
      FirstIndexIs(once, p, |rs|);
  }

  /** `findById` on messages. */
  function FindMessage(log: Log, id: MessageId): (r: Option<nat>)
    ensures r.Some? ==> r.value < |log| && log[r.value].id == id
    ensures r.None? <==> forall k :: 0 <= k < |log| ==> log[k].id != id
  {
    FirstIndex(log, (m: Message) => m.id == id)
  }

  /** Reacting. An unknown message is a 404; a message whose room no longer exists makes the
      handler fail (500); a requester the room does not include is a 403; otherwise the
      reaction is upserted and nothing else in the log changes. */
  function AddReaction(rooms: Store, log: Log, chatId: MessageId, user: UserId, includes: Includes,
                       emoji: string): (r: Outcome)
    ensures FindMessage(log, chatId).None? ==> r == Outcome(Refused(Refusal(404, "Message not found")), log)
    ensures FindMessage(log, chatId).Some? ==>
      var j := FindMessage(log, chatId).value;
      var room := FindById(rooms, log[j].room);
      && (room.None? ==> r == Outcome(Refused(Refusal(500, "Server error")), log))
      && (room.Some? && !includes(rooms[room.value].participants, user) ==>
            r == Outcome(Refused(Refusal(403, "Access denied")), log))
      && (room.Some? && includes(rooms[room.value].participants, user) ==>
            && |r.log| == |log|
            && r.answer == Sent(200, r.log[j])
            && r.log[j] == log[j].(reactions := Upsert(log[j].reactions, user, emoji))
            && forall k :: 0 <= k < |log| && k != j ==> r.log[k] == log[k])
  {
    match FindMessage(log, chatId)
    case None => Outcome(Refused(Refusal(404, "Message not found")), log)
    case Some(j) =>
      match FindById(rooms, log[j].room)
      case None => Outcome(Refused(Refusal(500, "Server error")), log)
      case Some(i) =>
        if !includes(rooms[i].participants, user) then Outcome(Refused(Refusal(403, "Access denied")), log)
        else
          var m := log[j].(reactions := Upsert(log[j].reactions, user, emoji));
          Outcome(Sent(200, m), log[j := m])
  }

  /** The log keeps every message's reactions one per user. */
  predicate ReactionsWellFormed(log: Log) {
    forall k :: 0 <= k < |log| ==> OneReactionPerUser(log[k].reactions)
  }

  lemma AddReactionKeepsOnePerUser(rooms: Store, log: Log, chatId: MessageId, user: UserId,
                                   includes: Includes, emoji: string)
    requires ReactionsWellFormed(log)
    ensures ReactionsWellFormed(AddReaction(rooms, log, chatId, user, includes, emoji).log)
  {
  }

  /** Deleting. An unknown message is a 404. The author may always delete; anyone else needs the
      message's room to exist (else the handler fails, 500) and to be hosted by them (else 403).
      A deletion removes exactly that message and keeps the others in order. */
  function DeleteMessage(rooms: Store, log: Log, chatId: MessageId, user: UserId): (r: Outcome)
    ensures FindMessage(log, chatId).None? ==> r == Outcome(Refused(Refusal(404, "Message not found")), log)
    ensures FindMessage(log, chatId).Some? ==>
      var j := FindMessage(log, chatId).value;
      var room := FindById(rooms, log[j].room);
      && (r.answer == Deleted <==> log[j].user == user || (room.Some? && rooms[room.value].host == user))
      && (r.answer == Deleted ==> r.log == log[..j] + log[j + 1..])
      && (r.answer != Deleted ==> r.log == log)
      && (log[j].user != user && room.None? ==> r.answer == Refused(Refusal(500, "Server error")))
      && (log[j].user != user && room.Some? && rooms[room.value].host != user ==>
            r.answer == Refused(Refusal(403, "Access denied")))
  {
    match FindMessage(log, chatId)
    case None => Outcome(Refused(Refusal(404, "Message not found")), log)
    case Some(j) =>
      if log[j].user != user && FindById(rooms, log[j].room).None? then
        Outcome(Refused(Refusal(500, "Server error")), log)
      else if log[j].user != user && rooms[FindById(rooms, log[j].room).value].host != user then
        Outcome(Refused(Refusal(403, "Access denied")), log)
      else
        Outcome(Deleted, log[..j] + log[j + 1..])
  }

  /** Message identifiers are unique in the log. */
  predicate MessageIdsUnique(log: Log) {
    forall j, k :: 0 <= j < k < |log| ==> log[j].id != log[k].id
  }

  /** With unique identifiers a deletion leaves no message with the identifier, and exactly the
      other messages, in order. */
  lemma DeleteRemovesExactly(rooms: Store, log: Log, chatId: MessageId, user: UserId)
    requires MessageIdsUnique(log)
    requires DeleteMessage(rooms, log, chatId, user).answer == Deleted
    ensures DeleteMessage(rooms, log, chatId, user).log == Filter(log, (m: Message) => m.id != chatId)
  {
    var j := FindMessage(log, chatId).value;
    FilterDropsOnly(log, (m: Message) => m.id != chatId, j);
  }
}
