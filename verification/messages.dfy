/** The staff inbox (src/app/admin/messages/page.tsx): conversations with staff members,
    each holding its messages, with search, send, mark-as-read and start-conversation. */
module Messages {
  import opened Wrappers
  import Text
  import Keyed

  datatype Message = Message(
    id: string,
    senderId: string,
    senderName: string,
    content: string,
    timestamp: string,
    isRead: bool)

  datatype Conversation = Conversation(
    id: string,
    participantId: string,
    participantName: string,
    participantRole: string,
    lastMessage: string,
    lastMessageTime: string,
    unreadCount: int,
    isOnline: bool,
    messages: seq<Message>)

  datatype Staff = Staff(id: string, name: string, role: string)

  /** The staff members a conversation can be started with. */
  const StaffTable: seq<Staff> := [
    Staff("admin1", "John Admin", "System Administrator"),
    Staff("admin2", "Sarah Manager", "Academic Manager"),
    Staff("staff1", "Mike Support", "IT Support"),
    Staff("staff2", "Lisa Coordinator", "Student Coordinator"),
    Staff("staff3", "David Clerk", "Administrative Clerk")]

  // ---------------------------------------------------------------------------
  // filteredConversations
  // ---------------------------------------------------------------------------

  predicate Matches(c: Conversation, term: string)
  {
    Text.ContainsIgnoringCase(c.participantName, term) || Text.ContainsIgnoringCase(c.lastMessage, term)
  }

  /** `filteredConversations`: the conversations whose participant or last message
      contains the search term, ignoring case, in list order. */
  function Filter(convs: seq<Conversation>, term: string): (r: seq<Conversation>)
    ensures forall i :: 0 <= i < |r| ==> r[i] in convs && Matches(r[i], term)
    ensures forall i :: 0 <= i < |convs| && Matches(convs[i], term) ==> convs[i] in r
  {
    Keyed.Keep(convs, (c: Conversation) => Matches(c, term))
  }

  /** An empty search shows every conversation. */
  lemma FilterShowsAllByDefault(convs: seq<Conversation>)
    ensures Filter(convs, "") == convs
  {
    forall i | 0 <= i < |convs|
      ensures Matches(convs[i], "")
    {
      Text.EmptyTermMatches(convs[i].participantName);
    }
    Keyed.KeepAll(convs, (c: Conversation) => Matches(c, ""));
  }

  // ---------------------------------------------------------------------------
  // handleSendMessage
  // ---------------------------------------------------------------------------

  /** The conversation list and the text box after a send. */
  datatype Outbox = Outbox(conversations: seq<Conversation>, draft: string)

  /** A conversation with one more message, which becomes its last message. */
  function Append(c: Conversation, m: Message): Conversation
  {
    c.(messages := c.messages + [m], lastMessage := m.content, lastMessageTime := m.timestamp)
  }

  /** `handleSendMessage`. `selected` is the id of the open conversation, `msgId` stands
      for `Date.now().toString()` and `now` for `new Date().toISOString()`. A draft of
      nothing but white space, or no open conversation, leaves everything as it was.
      Otherwise the trimmed draft is appended to the open conversation, becomes its last
      message, and the text box is cleared. */
  function Send(convs: seq<Conversation>, selected: Option<string>, draft: string, msgId: string, now: string): (r: Outbox)
    ensures Text.AllSpace(draft) || selected.None? ==> r == Outbox(convs, draft)
    ensures !Text.AllSpace(draft) && selected.Some? ==>
              && r.draft == ""
              && |r.conversations| == |convs|
              && (forall i :: 0 <= i < |convs| && convs[i].id != selected.value ==> r.conversations[i] == convs[i])
              && (forall i :: 0 <= i < |convs| && convs[i].id == selected.value ==>
                    var c := r.conversations[i];
                    && |c.messages| == |convs[i].messages| + 1
                    && c.messages[..|convs[i].messages|] == convs[i].messages
                    && c.messages[|convs[i].messages|] == Message(msgId, "admin", "Admin", Text.Trim(draft), now, true)
                    && c.lastMessage == Text.Trim(draft) && c.lastMessageTime == now
                    && c.(messages := convs[i].messages, lastMessage := convs[i].lastMessage,
                          lastMessageTime := convs[i].lastMessageTime) == convs[i])
  {
    Text.TrimEmptyIffAllSpace(draft);
    var content := Text.Trim(draft);
    if content == "" || selected.None? then Outbox(convs, draft)
    else
      Outbox(AppendTo(convs, selected.value, Message(msgId, "admin", "Admin", content, now, true)), "")
  }

  /** The conversations with the id get m as their new last message; the others stay. */
  function AppendTo(convs: seq<Conversation>, id: string, m: Message): (r: seq<Conversation>)
    ensures |r| == |convs|
    ensures forall i :: 0 <= i < |convs| && convs[i].id != id ==> r[i] == convs[i]
    ensures forall i :: 0 <= i < |convs| && convs[i].id == id ==>
              && |r[i].messages| == |convs[i].messages| + 1
              && r[i].messages[..|convs[i].messages|] == convs[i].messages
              && r[i].messages[|convs[i].messages|] == m
              && r[i].lastMessage == m.content && r[i].lastMessageTime == m.timestamp
              && r[i].(messages := convs[i].messages, lastMessage := convs[i].lastMessage,
                       lastMessageTime := convs[i].lastMessageTime) == convs[i]
  {
    var r := Keyed.Update(convs, (c: Conversation) => c.id, id, (c: Conversation) => Append(c, m));
    assert forall i :: 0 <= i < |convs| && convs[i].id == id ==> r[i].messages[..|convs[i].messages|] == convs[i].messages;
    r
  }

  /** A sent message never has white space at either end and is never empty. */
  lemma SentContentIsTrimmed(convs: seq<Conversation>, selected: Option<string>, draft: string, msgId: string, now: string, i: int)
    requires !Text.AllSpace(draft) && selected.Some?
    requires 0 <= i < |convs| && convs[i].id == selected.value
    ensures var c := Send(convs, selected, draft, msgId, now).conversations[i];
            var content := c.messages[|c.messages| - 1].content;
            content != "" && !Text.IsJsSpace(content[0]) && !Text.IsJsSpace(content[|content| - 1])
  {
    Text.TrimEmptyIffAllSpace(draft);
  }

  // ---------------------------------------------------------------------------
  // markAsRead, selectConversation
  // ---------------------------------------------------------------------------

  function ReadAll(c: Conversation): Conversation
  {
    c.(unreadCount := 0, messages := seq(|c.messages|, k requires 0 <= k < |c.messages| => c.messages[k].(isRead := true)))
  }

  /** `markAsRead`: the conversations with the id have no unread count and every message
      read; nothing else about them, and nothing about other conversations, changes. */
  function MarkAsRead(convs: seq<Conversation>, id: string): (r: seq<Conversation>)
    ensures |r| == |convs|
    ensures forall i :: 0 <= i < |convs| && convs[i].id != id ==> r[i] == convs[i]
    ensures forall i :: 0 <= i < |convs| && convs[i].id == id ==>
              && r[i].unreadCount == 0
              && |r[i].messages| == |convs[i].messages|
              && (forall k :: 0 <= k < |r[i].messages| ==>
                    r[i].messages[k].isRead && r[i].messages[k].(isRead := convs[i].messages[k].isRead) == convs[i].messages[k])
              && r[i].(unreadCount := convs[i].unreadCount, messages := convs[i].messages) == convs[i]
  {
    Keyed.Update(convs, (c: Conversation) => c.id, id, ReadAll)
  }

  /** Marking a conversation read twice is marking it once. */
  lemma MarkAsReadIdempotent(convs: seq<Conversation>, id: string)
    ensures MarkAsRead(MarkAsRead(convs, id), id) == MarkAsRead(convs, id)
  {
    forall i | 0 <= i < |convs| && convs[i].id == id
      ensures ReadAll(ReadAll(convs[i])) == ReadAll(convs[i])
    {
      assert ReadAll(ReadAll(convs[i])).messages == ReadAll(convs[i]).messages;
    }
    Keyed.UpdateIdempotent(convs, (c: Conversation) => c.id, id, ReadAll);
  }

  /** `selectConversation`: the conversation clicked on (as it was when the list was drawn)
      is opened, and it is marked read only when it showed an unread count. */
  function Select(convs: seq<Conversation>, clicked: Conversation): (r: (Conversation, seq<Conversation>))
    ensures r.0 == clicked
    ensures clicked.unreadCount <= 0 ==> r.1 == convs
    ensures clicked.unreadCount > 0 ==> r.1 == MarkAsRead(convs, clicked.id)
  {
    (clicked, if clicked.unreadCount > 0 then MarkAsRead(convs, clicked.id) else convs)
  }

  /** Clicking the same conversation twice is clicking it once. */
  lemma SelectTwice(convs: seq<Conversation>, clicked: Conversation)
    ensures Select(Select(convs, clicked).1, clicked) == Select(convs, clicked)
  {
    MarkAsReadIdempotent(convs, clicked.id);
  }

  // ---------------------------------------------------------------------------
  // handleStartNewConversation
  // ---------------------------------------------------------------------------

  /** How a request to start a conversation ends. */
  datatype Start =
    | NoStaffSelected            // the error toast; nothing changes
    | UnknownStaff               // a silent return; nothing changes
    | Existing(conv: Conversation)  // the existing conversation is opened instead
    | Created(conv: Conversation)   // a new conversation is put on top and opened

  /** `handleStartNewConversation`. `newId`, `now` and `online` stand for
      `Date.now().toString()`, `new Date().toISOString()` and `Math.random() > 0.5`. */
  function StartConversation(convs: seq<Conversation>, staffId: string, newId: string, now: string, online: bool): (r: Start)
    ensures r.NoStaffSelected? <==> staffId == ""
    ensures r.UnknownStaff? <==> staffId != "" && forall j :: 0 <= j < |StaffTable| ==> StaffTable[j].id != staffId
    ensures r.Existing? ==> r.conv in convs && r.conv.participantId == staffId
    ensures r.Created? <==> && staffId != ""
                            && (exists j :: 0 <= j < |StaffTable| && StaffTable[j].id == staffId)
                            && forall i :: 0 <= i < |convs| ==> convs[i].participantId != staffId
    ensures r.Created? ==> r.conv.participantId == staffId && r.conv.messages == [] && r.conv.unreadCount == 0
    ensures r.Created? ==> exists j :: (0 <= j < |StaffTable| && StaffTable[j].id == staffId
                                        && r.conv == Conversation(newId, staffId, StaffTable[j].name, StaffTable[j].role,
                                                                  "", now, 0, online, []))
  {
    if staffId == "" then NoStaffSelected
    else
      match Keyed.Find(StaffTable, (s: Staff) => s.id == staffId)
      case None => UnknownStaff
      case Some(staff) =>
        match Keyed.Find(convs, (c: Conversation) => c.participantId == staffId)
        case Some(c) => Existing(c)
        case None => Created(Conversation(newId, staff.id, staff.name, staff.role, "", now, 0, online, []))
  }

  /** The conversation list after a start request: only a creation changes it. */
  function AfterStart(convs: seq<Conversation>, r: Start): (after: seq<Conversation>)
    ensures r.Created? ==> after == [r.conv] + convs
    ensures !r.Created? ==> after == convs
  {
    if r.Created? then [r.conv] + convs else convs
  }

  /** No two conversations are with the same person. */
  predicate UniqueParticipants(convs: seq<Conversation>)
  {
    forall i, j :: 0 <= i < j < |convs| ==> convs[i].participantId != convs[j].participantId
  }

  /** Starting a conversation never opens a second one with the same person. */
  lemma StartKeepsParticipantsUnique(convs: seq<Conversation>, staffId: string, newId: string, now: string, online: bool)
    requires UniqueParticipants(convs)
    ensures UniqueParticipants(AfterStart(convs, StartConversation(convs, staffId, newId, now, online)))
  {
    var r := StartConversation(convs, staffId, newId, now, online);
    if r.Created? {
      PrependKeepsUnique(convs, r.conv);
    }
  }

  /** A conversation with somebody new can go on top without breaking uniqueness. */
  lemma PrependKeepsUnique(convs: seq<Conversation>, c: Conversation)
    requires UniqueParticipants(convs)
    requires forall i :: 0 <= i < |convs| ==> convs[i].participantId != c.participantId
    ensures UniqueParticipants([c] + convs)
  {
    var after := [c] + convs;
    assert forall i :: 1 <= i < |after| ==> after[i] == convs[i - 1];
  }

  /** Asking again for the same person right after creating a conversation with them
      opens that conversation instead of making another. */
  lemma StartAgainFindsCreated(convs: seq<Conversation>, staffId: string, newId: string, now: string, online: bool,
                               newId2: string, now2: string, online2: bool)
    requires StartConversation(convs, staffId, newId, now, online).Created?
    ensures var after := AfterStart(convs, StartConversation(convs, staffId, newId, now, online));
            StartConversation(after, staffId, newId2, now2, online2)
              == Existing(StartConversation(convs, staffId, newId, now, online).conv)
  {
  }
}
